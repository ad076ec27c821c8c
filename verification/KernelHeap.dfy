/** The kernel heap on the page allocator: slabs take their pages from it, objects over 2048 bytes
    are page ranges of their own with a header of eight bytes, and a free gives the pages back. */
module KernelHeap {
  import opened IntervalTree
  import opened PageTree
  import KernelHalf
  import A = AddressSpaces
  import K = KernelPages
  import P = Paging
  import S = HeapState
  import H = Heap
  import U = HeapUse
  import L = SlabLists
  import VmaPool

  const NONE: int := -1
  const PAGE: nat := 4096
  const U32: nat := 0x1_0000_0000
  const LARGE_HEADER: nat := 8
  const SLAB_MAGIC: nat := 0x534C_4142

  // ------------------------------------------------------------------------------------
  // Page ranges in the hands of the heap
  // ------------------------------------------------------------------------------------

  /** The page is mapped to a frame that the frame manager knows. */
  predicate Real(m: Memory, base: nat, total: nat, p: nat)
    requires Tables(m) && base + KernelHalf.STATIC_FRAMES <= |m|
  {
    K.PageOf(m, base, p).Hit? && K.PageOf(m, base, p).frame < total
  }

  /** The `n` pages from `a` on are a recorded range, and all of them are real. */
  ghost predicate Piece(ivs: seq<Interval>, m: Memory, base: nat, total: nat, a: nat, n: nat)
    requires Tables(m) && base + KernelHalf.STATIC_FRAMES <= |m|
  {
    Interval(a, a + n * PAGE, 0) in ivs && forall p :: a / PAGE <= p < a / PAGE + n ==> Real(m, base, total, p)
  }

  /** Every slab page and every large object has its own range. */
  ghost predicate Held(slabs: set<nat>, large: map<nat, nat>, ivs: seq<Interval>, m: Memory, base: nat, total: nat)
    requires Tables(m) && base + KernelHalf.STATIC_FRAMES <= |m|
  {
    (forall a :: a in slabs ==> Piece(ivs, m, base, total, a, 1)) &&
    (forall a :: a in large ==> large[a] > 0 && a !in slabs && Piece(ivs, m, base, total, a, large[a]))
  }

  lemma {:induction false} PieceBacked(ivs: seq<Interval>, m0: Memory, m: Memory, base: nat, total: nat, start: nat,
                                       frames: seq<nat>, a: nat, n: nat)
    requires Tables(m0) && Tables(m) && base + KernelHalf.STATIC_FRAMES <= |m0| == |m|
    requires K.PageRanges(ivs) && Piece(ivs, m0, base, total, a, n) && K.Backed(m0, m, base, start / PAGE, frames)
    requires forall f :: f in frames ==> f < total
    ensures Piece(Place(ivs, Interval(start, start + |frames| * PAGE, 0)), m, base, total, a, n)
  {
    PlaceElements(ivs, Interval(start, start + |frames| * PAGE, 0));
    assert K.PageRange(Interval(a, a + n * PAGE, 0));
    forall p | a / PAGE <= p < a / PAGE + n ensures Real(m, base, total, p) {
      assert Real(m0, base, total, p);
      if start / PAGE <= p < start / PAGE + |frames| { assert frames[p - start / PAGE] in frames; }
    }
  }

  lemma {:induction false} PieceNew(ivs: seq<Interval>, m0: Memory, m: Memory, base: nat, total: nat, start: nat,
                                    frames: seq<nat>)
    requires Tables(m0) && Tables(m) && base + KernelHalf.STATIC_FRAMES <= |m0| == |m|
    requires K.Room(ivs, |frames|, start) && K.Backed(m0, m, base, start / PAGE, frames)
    requires forall f :: f in frames ==> f < total
    ensures Piece(Place(ivs, Interval(start, start + |frames| * PAGE, 0)), m, base, total, start, |frames|)
  {
    PlaceElements(ivs, Interval(start, start + |frames| * PAGE, 0));
    forall p | start / PAGE <= p < start / PAGE + |frames| ensures Real(m, base, total, p) {
      assert Names(K.PageOf(m, base, p), frames[p - start / PAGE]) && frames[p - start / PAGE] in frames;
    }
  }

  lemma {:induction false} PieceCleared(ivs: seq<Interval>, m0: Memory, m: Memory, base: nat, total: nat, start: nat,
                                        count: nat, a: nat, n: nat)
    requires Tables(m0) && Tables(m) && base + KernelHalf.STATIC_FRAMES <= |m0| == |m|
    requires Sorted(ivs) && K.PageRanges(ivs) && Piece(ivs, m0, base, total, a, n) &&
      Interval(start, start + count * PAGE, 0) in ivs
    requires a != start && K.Cleared(m0, m, base, start / PAGE, count)
    ensures Piece(Take(ivs, start, start + count * PAGE), m, base, total, a, n)
  {
    var x, y := Interval(a, a + n * PAGE, 0), Interval(start, start + count * PAGE, 0);
    assert K.PageRange(x) && K.PageRange(y);
    K.TakeKeeps(ivs, start, start + count * PAGE, x);
    K.SortedApart(ivs, x, y);
    forall p | a / PAGE <= p < a / PAGE + n ensures Real(m, base, total, p) {
      assert Real(m0, base, total, p);
    }
  }

  lemma {:induction false} PieceSame(ivs: seq<Interval>, m0: Memory, m: Memory, base: nat, total: nat, a: nat, n: nat)
    requires Tables(m0) && Tables(m) && base + KernelHalf.STATIC_FRAMES <= |m0| == |m|
    requires K.PageRanges(ivs) && Piece(ivs, m0, base, total, a, n) && K.SamePages(m0, m, base)
    ensures Piece(ivs, m, base, total, a, n)
  {
    assert K.PageRange(Interval(a, a + n * PAGE, 0));
    forall p | a / PAGE <= p < a / PAGE + n ensures Real(m, base, total, p) {
      assert Real(m0, base, total, p);
    }
  }

  lemma {:induction false} HeldSame(slabs: set<nat>, large: map<nat, nat>, ivs: seq<Interval>, m0: Memory, m: Memory,
                                    base: nat, total: nat)
    requires Tables(m0) && Tables(m) && base + KernelHalf.STATIC_FRAMES <= |m0| == |m|
    requires K.PageRanges(ivs) && Held(slabs, large, ivs, m0, base, total) && K.SamePages(m0, m, base)
    ensures Held(slabs, large, ivs, m, base, total)
  {
    forall a | a in slabs ensures Piece(ivs, m, base, total, a, 1) { PieceSame(ivs, m0, m, base, total, a, 1); }
    forall a | a in large ensures Piece(ivs, m, base, total, a, large[a]) {
      PieceSame(ivs, m0, m, base, total, a, large[a]);
    }
  }

  /** A new range is none of those in use. */
  lemma {:induction false} HeldBacked(slabs: set<nat>, large: map<nat, nat>, ivs: seq<Interval>, m0: Memory, m: Memory,
                                      base: nat, total: nat, start: nat, frames: seq<nat>)
    requires Tables(m0) && Tables(m) && base + KernelHalf.STATIC_FRAMES <= |m0| == |m|
    requires K.PageRanges(ivs) && Sorted(ivs) && Held(slabs, large, ivs, m0, base, total)
    requires frames != [] && K.Room(ivs, |frames|, start) && K.Backed(m0, m, base, start / PAGE, frames)
    requires forall f :: f in frames ==> f < total
    ensures Held(slabs, large, Place(ivs, Interval(start, start + |frames| * PAGE, 0)), m, base, total)
    ensures start !in slabs && start !in large
  {
    var ivs' := Place(ivs, Interval(start, start + |frames| * PAGE, 0));
    forall a | a in slabs ensures Piece(ivs', m, base, total, a, 1) && a != start {
      PieceBacked(ivs, m0, m, base, total, start, frames, a, 1);
      RoomElsewhere(ivs, |frames|, start, Interval(a, a + PAGE, 0));
    }
    forall a | a in large ensures Piece(ivs', m, base, total, a, large[a]) && a != start {
      PieceBacked(ivs, m0, m, base, total, start, frames, a, large[a]);
      RoomElsewhere(ivs, |frames|, start, Interval(a, a + large[a] * PAGE, 0));
    }
  }

  lemma {:induction false} RoomElsewhere(ivs: seq<Interval>, count: nat, start: nat, x: Interval)
    requires Sorted(ivs) && count > 0 && K.Room(ivs, count, start) && x in ivs
    ensures x.start != start
  {
  }

  /** Giving one range back leaves the others. */
  lemma {:induction false} HeldCleared(slabs: set<nat>, large: map<nat, nat>, ivs: seq<Interval>, m0: Memory, m: Memory,
                                       base: nat, total: nat, start: nat, count: nat)
    requires Tables(m0) && Tables(m) && base + KernelHalf.STATIC_FRAMES <= |m0| == |m|
    requires K.PageRanges(ivs) && Sorted(ivs) && Held(slabs, large, ivs, m0, base, total) && start !in slabs &&
      start !in large
    requires Interval(start, start + count * PAGE, 0) in ivs && K.Cleared(m0, m, base, start / PAGE, count)
    ensures Held(slabs, large, Take(ivs, start, start + count * PAGE), m, base, total)
  {
    var ivs' := Take(ivs, start, start + count * PAGE);
    forall a | a in slabs ensures Piece(ivs', m, base, total, a, 1) {
      PieceCleared(ivs, m0, m, base, total, start, count, a, 1);
    }
    forall a | a in large ensures Piece(ivs', m, base, total, a, large[a]) {
      PieceCleared(ivs, m0, m, base, total, start, count, a, large[a]);
    }
  }

  // ------------------------------------------------------------------------------------
  // Sizes of large objects
  // ------------------------------------------------------------------------------------

  /** `allocate_large`'s page count, in the source's 32-bit arithmetic. */
  function LargePages(size: nat): nat {
    var total := (size + LARGE_HEADER) % U32;
    (total + PAGE - 1) % U32 / PAGE
  }

  /** The pages hold the header and the object for every 32-bit size for which there are any,
      except the last seven: their sum with the header wraps to a single page. */
  lemma {:induction false} LargePagesExact(size: nat)
    requires size < U32 && LargePages(size) > 0
    ensures size + LARGE_HEADER <= LargePages(size) * PAGE <==> size < U32 - 7
    ensures size < U32 - 7 ==> (LargePages(size) - 1) * PAGE < size + LARGE_HEADER
  {
  }

  /** A request for 4294967289 bytes would get one page. */
  lemma {:induction false} LargePagesWitness()
    ensures LargePages(0xFFFF_FFF9) == 1
  {
  }

  ghost predicate Seen(m: Memory, k: int) { true }

  /** Ranges, free frames and pages before and after the lowest range was taken; under a guard that
      `assert Seen(m, 0)` opens. */
  ghost predicate Fresh(ivs: seq<Interval>, free: set<nat>, m: Memory, ivs': seq<Interval>, free': set<nat>, m': Memory,
                        base: nat, total: nat, start: nat, frames: seq<nat>) {
    Tables(m) && Tables(m') && base + KernelHalf.STATIC_FRAMES <= |m| == |m'| && frames != [] &&
    forall k :: Seen(m, k) ==>
      Sorted(ivs) && K.PageRanges(ivs) && K.Covered(m, base, ivs) && K.Room(ivs, |frames|, start) &&
      (forall f :: f in free ==> f < total) && K.Taken(free, frames, free') &&
      K.Backed(m, m', base, start / PAGE, frames) && ivs' == Place(ivs, Interval(start, start + |frames| * PAGE, 0)) &&
      forall a :: K.Room(ivs, |frames|, a) ==> start <= a
  }

  /** Giving the range back again leaves no trace. */
  lemma {:induction false} TraceGone(ivs: seq<Interval>, free: set<nat>, m: Memory, ivs1: seq<Interval>,
                                     free1: set<nat>, m1: Memory, ivs2: seq<Interval>, free2: set<nat>, m2: Memory,
                                     base: nat, total: nat, start: nat, frames: seq<nat>)
    requires Fresh(ivs, free, m, ivs1, free1, m1, base, total, start, frames) && Tables(m2) && |m2| == |m1|
    requires ivs2 == Take(ivs1, start, start + |frames| * PAGE)
    requires K.Cleared(m1, m2, base, start / PAGE, |frames|)
    requires free2 == free1 + K.Behind(m1, base, start / PAGE, |frames|, total)
    ensures ivs2 == ivs && free2 == free && K.SamePages(m, m2, base)
  {
    assert Seen(m, 0);
    K.FreeUndoesAlloc(m, m1, m2, base, ivs, ivs1, ivs2, start, |frames|, frames, free, free1, free2, total);
  }

  ghost predicate Shown(others: map<nat, nat>, k: int) { true }

  /** Where there is a new object of cache `c` behind `ptr`, and otherwise the same ones. */
  ghost predicate Gained(s: S.State, r: S.State, ptr: int, c: nat) {
    S.HEADER <= ptr && ptr - S.HEADER !in S.Live(s) && S.Live(r) == S.Live(s) + {ptr - S.HEADER} &&
    S.IsLive(r, ptr - S.HEADER) && S.SlabOf(r, ptr - S.HEADER).cache == c
  }

  class KernelHeap {
    const heap: H.Heap
    const pages: K.PageAllocator
    /** The headers of the large objects: page counts by first address. */
    var large: map<nat, nat>

    /** The page allocator is in order and the ranges are in its hands; under a guard that
        `assert Shown(large, 0)` opens. */
    ghost predicate Placed(slabs: set<nat>, others: map<nat, nat>)
      reads pages.paging.pmm, pages.paging.pmm.bitmap, pages.paging.pmm.bitmap.bytes, pages.paging.tables
      reads pages.vma, pages.vma.pool
    {
      pages.Paged() && forall k :: Shown(others, k) ==>
        pages.Valid() &&
        Held(slabs, others, pages.vma.Intervals(), pages.paging.tables.mem, pages.paging.tables.base,
             pages.paging.pmm.totalFrames)
    }

    ghost predicate Valid()
      reads this, heap, heap.lists
      reads pages.paging.pmm, pages.paging.pmm.bitmap, pages.paging.pmm.bitmap.bytes, pages.paging.tables
      reads pages.vma, pages.vma.pool
    {
      heap.Valid() && Placed(S.Pages(heap.Now()), large)
    }

    /** The page allocator would give `n` pages. */
    ghost predicate Can(n: nat)
      requires pages.Paged()
      reads pages.paging.pmm, pages.paging.pmm.bitmap, pages.paging.pmm.bitmap.bytes, pages.paging.tables
      reads pages.vma, pages.vma.pool
    {
      pages.paging.pmm.initialized && n > 0 && (exists a :: K.Room(pages.vma.Intervals(), n, a)) &&
      |pages.paging.Free()| >= n && |pages.vma.pool.used| < VmaPool.MAX_NODES
    }

    /** Ranges, free frames and kernel pages are as in an earlier state. */
    ghost predicate AsBefore(ivs: seq<Interval>, free: set<nat>, m: Memory)
      requires pages.Paged() && Tables(m) && |m| == |pages.paging.tables.mem|
      reads pages.paging.pmm, pages.paging.pmm.bitmap, pages.paging.pmm.bitmap.bytes, pages.paging.tables
      reads pages.vma, pages.vma.pool
    {
      pages.vma.Intervals() == ivs && pages.paging.Free() == free &&
      K.SamePages(m, pages.paging.tables.mem, pages.paging.tables.base)
    }

    constructor (pages: K.PageAllocator)
      requires pages.Valid()
      ensures Valid() && this.pages == pages && fresh(heap) && S.Live(heap.Now()) == {} && large == map[]
    {
      this.pages := pages;
      heap := new H.Heap();
      large := map[];
    }

    lemma {:induction false} RangesSorted()
      requires pages.Valid()
      ensures Sorted(pages.vma.Intervals()) && forall f :: f in pages.paging.Free() ==> f < pages.paging.pmm.totalFrames
    {
      assert P.Open(0);
    }

    lemma {:induction false} PlacedSlab(slabs: set<nat>, others: map<nat, nat>, a: nat)
      requires Placed(slabs, others) && a !in others
      requires Piece(pages.vma.Intervals(), pages.paging.tables.mem, pages.paging.tables.base,
                     pages.paging.pmm.totalFrames, a, 1)
      ensures Placed(slabs + {a}, others)
    {
      assert Shown(others, 0);
    }

    lemma {:induction false} PlacedLarge(slabs: set<nat>, others: map<nat, nat>, a: nat, n: nat)
      requires Placed(slabs, others) && a !in slabs && n > 0
      requires Piece(pages.vma.Intervals(), pages.paging.tables.mem, pages.paging.tables.base,
                     pages.paging.pmm.totalFrames, a, n)
      ensures Placed(slabs, others[a := n])
    {
      assert Shown(others, 0);
    }

    /** What the heap no longer uses, it can give back. */
    lemma {:induction false} PlacedLess(slabs: set<nat>, others: map<nat, nat>, a: nat)
      requires Placed(slabs, others) && (a in slabs || a in others)
      ensures Placed(slabs - {a}, others - {a})
      ensures Piece(pages.vma.Intervals(), pages.paging.tables.mem, pages.paging.tables.base,
                    pages.paging.pmm.totalFrames, a,
                    if a in others then others[a] else 1)
      ensures a in others ==> a !in slabs && others[a] > 0
    {
      assert Shown(others, 0);
    }

    /** The range of `frames` was just taken in the state with these ranges, free frames and pages. */
    ghost predicate Undoable(ivs: seq<Interval>, free: set<nat>, m: Memory, start: nat, frames: seq<nat>)
      reads pages.paging.pmm, pages.paging.pmm.bitmap, pages.paging.pmm.bitmap.bytes, pages.paging.tables
      reads pages.vma, pages.vma.pool
    {
      pages.Paged() &&
      Fresh(ivs, free, m, pages.vma.Intervals(), pages.paging.Free(), pages.paging.tables.mem, pages.paging.tables.base,
            pages.paging.pmm.totalFrames, start, frames)
    }

    lemma {:induction false} JustTaken(ivs: seq<Interval>, free: set<nat>, m: Memory, start: nat, frames: seq<nat>)
      requires pages.Paged() && Tables(m) && |m| == |pages.paging.tables.mem| && frames != []
      requires Sorted(ivs) && K.PageRanges(ivs) && K.Covered(m, pages.paging.tables.base, ivs) &&
        K.Room(ivs, |frames|, start)
      requires forall f :: f in free ==> f < pages.paging.pmm.totalFrames
      requires K.Taken(free, frames, pages.paging.Free())
      requires K.Backed(m, pages.paging.tables.mem, pages.paging.tables.base, start / PAGE, frames)
      requires pages.vma.Intervals() == Place(ivs, Interval(start, start + |frames| * PAGE, 0))
      requires forall a :: K.Room(ivs, |frames|, a) ==> start <= a
      ensures Undoable(ivs, free, m, start, frames) && A.DYNAMIC_BASE <= start && start % PAGE == 0
    {
    }

    /** A one-page range was taken, at the lowest place, and backed by a frame that was free. */
    ghost predicate Took(ivs: seq<Interval>, free: set<nat>, m: Memory, page: nat)
      reads pages.paging.pmm, pages.paging.pmm.bitmap, pages.paging.pmm.bitmap.bytes, pages.paging.tables
      reads pages.vma, pages.vma.pool
    {
      exists f: nat :: Undoable(ivs, free, m, page, [f])
    }

    /** The page that was taken is that of a new slab. */
    ghost predicate NewSlab(s: S.State, ivs: seq<Interval>, free: set<nat>, m: Memory)
      requires |s.spots| == |s.slabs| && |heap.lists.spots| == |heap.slabs|
      reads heap, heap.lists
      reads pages.paging.pmm, pages.paging.pmm.bitmap, pages.paging.pmm.bitmap.bytes, pages.paging.tables
      reads pages.vma, pages.vma.pool
    {
      exists page: nat :: Took(ivs, free, m, page) && S.Pages(heap.Now()) == S.Pages(s) + {page}
    }

    /** The range of `n` pages from `a` on was given back: its record and pages are gone, all of them
        were real, and the frames behind them, none of which was free, are free. */
    ghost predicate Gave(ivs: seq<Interval>, free: set<nat>, m: Memory, a: nat, n: nat)
      reads pages.paging.pmm, pages.paging.pmm.bitmap, pages.paging.pmm.bitmap.bytes, pages.paging.tables
      reads pages.vma, pages.vma.pool
    {
      pages.Paged() && Tables(m) && |m| == |pages.paging.tables.mem| &&
      pages.vma.Intervals() == Take(ivs, a, a + n * PAGE) &&
      (forall p :: a / PAGE <= p < a / PAGE + n ==>
        Real(m, pages.paging.tables.base, pages.paging.pmm.totalFrames, p)) &&
      K.Cleared(m, pages.paging.tables.mem, pages.paging.tables.base, a / PAGE, n) &&
      var gone := K.Behind(m, pages.paging.tables.base, a / PAGE, n, pages.paging.pmm.totalFrames);
      pages.paging.Free() == free + gone && gone !! free
    }

    /** Asks the page allocator. */
    method AskPages(n: nat) returns (start: int, ghost frames: seq<nat>)
      requires pages.Valid()
      modifies pages.paging.tables`mem, pages.paging.pmm, pages.paging.pmm.bitmap, pages.paging.pmm.bitmap.bytes
      modifies pages.vma, pages.vma.pool
      ensures pages.Valid() && (start == NONE <==> !old(Can(n)))
      ensures start == NONE ==>
          AsBefore(old(pages.vma.Intervals()), old(pages.paging.Free()), old(pages.paging.tables.mem))
      ensures start != NONE ==>
                A.DYNAMIC_BASE <= start && start % PAGE == 0 && |frames| == n &&
                Undoable(old(pages.vma.Intervals()), old(pages.paging.Free()), old(pages.paging.tables.mem), start,
                         frames)
    {
      RangesSorted();
      var ok, a;
      ok, a, frames := pages.AllocPages(n, A.NODE_ANY);
      start := NONE;
      if ok {
        start := a;
        JustTaken(old(pages.vma.Intervals()), old(pages.paging.Free()), old(pages.paging.tables.mem), a, frames);
      }
    }

    lemma {:induction false} PlacedAfter(slabs: set<nat>, others: map<nat, nat>, ivs: seq<Interval>, free: set<nat>,
                                         m: Memory, start: nat, frames: seq<nat>)
      requires pages.Valid() && Undoable(ivs, free, m, start, frames)
      requires Held(slabs, others, ivs, m, pages.paging.tables.base, pages.paging.pmm.totalFrames)
      ensures Placed(slabs, others) && start !in slabs && start !in others
      ensures Piece(pages.vma.Intervals(), pages.paging.tables.mem, pages.paging.tables.base,
                    pages.paging.pmm.totalFrames, start, |frames|)
    {
      assert Seen(m, 0);
      assert forall f :: f in frames ==> f in K.Elements(frames);
      HeldBacked(slabs, others, ivs, m, pages.paging.tables.mem, pages.paging.tables.base, pages.paging.pmm.totalFrames,
                 start, frames);
      PieceNew(ivs, m, pages.paging.tables.mem, pages.paging.tables.base, pages.paging.pmm.totalFrames, start, frames);
    }

    lemma {:induction false} PlacedSame(slabs: set<nat>, others: map<nat, nat>, m: Memory)
      requires pages.Valid() && Tables(m) && |m| == |pages.paging.tables.mem|
      requires Held(slabs, others, pages.vma.Intervals(), m, pages.paging.tables.base, pages.paging.pmm.totalFrames)
      requires K.SamePages(m, pages.paging.tables.mem, pages.paging.tables.base)
      ensures Placed(slabs, others)
    {
      HeldSame(slabs, others, pages.vma.Intervals(), m, pages.paging.tables.mem, pages.paging.tables.base,
               pages.paging.pmm.totalFrames);
    }

    /** The first range of an empty window is at its bottom. */
    lemma {:induction false} FirstAtBottom(ivs: seq<Interval>, free: set<nat>, m: Memory, start: nat, frames: seq<nat>)
      requires ivs == [] && Undoable(ivs, free, m, start, frames)
      ensures start == A.DYNAMIC_BASE
    {
      assert Seen(m, 0);
      assert K.Room(ivs, |frames|, A.DYNAMIC_BASE);
    }

    /** Asks for pages while `slabs` and the large objects stay in place. */
    method TakePages(n: nat, ghost slabs: set<nat>) returns (start: int, ghost frames: seq<nat>)
      requires Placed(slabs, large)
      modifies pages.paging.tables`mem, pages.paging.pmm, pages.paging.pmm.bitmap, pages.paging.pmm.bitmap.bytes
      modifies pages.vma, pages.vma.pool
      ensures Placed(slabs, large) && (start == NONE <==> !old(Can(n)))
      ensures start == NONE ==>
          AsBefore(old(pages.vma.Intervals()), old(pages.paging.Free()), old(pages.paging.tables.mem))
      ensures start != NONE ==>
                A.DYNAMIC_BASE <= start && start % PAGE == 0 && start !in slabs && start !in large && |frames| == n &&
                Piece(pages.vma.Intervals(), pages.paging.tables.mem, pages.paging.tables.base,
                      pages.paging.pmm.totalFrames, start, n) &&
                Undoable(old(pages.vma.Intervals()), old(pages.paging.Free()), old(pages.paging.tables.mem), start,
                         frames)
      ensures start != NONE && old(pages.vma.Intervals()) == [] ==> start == A.DYNAMIC_BASE
    {
      assert Shown(large, 0);
      start, frames := AskPages(n);
      if start == NONE {
        PlacedSame(slabs, large, old(pages.paging.tables.mem));
      } else {
        PlacedAfter(slabs, large, old(pages.vma.Intervals()), old(pages.paging.Free()), old(pages.paging.tables.mem),
                    start, frames);
        if old(pages.vma.Intervals()) == [] {
          FirstAtBottom(old(pages.vma.Intervals()), old(pages.paging.Free()), old(pages.paging.tables.mem), start,
                        frames);
        }
      }
    }

    /** Gives a range back that is in use for nothing any more. */
    method DropPages(start: nat, n: nat, ghost slabs: set<nat>)
      requires Placed(slabs, large) && n > 0 && start !in slabs && start !in large
      requires Piece(pages.vma.Intervals(), pages.paging.tables.mem, pages.paging.tables.base,
                     pages.paging.pmm.totalFrames, start, n)
      modifies pages.paging.tables`mem, pages.paging.pmm, pages.paging.pmm.bitmap, pages.paging.pmm.bitmap.bytes
      modifies pages.vma, pages.vma.pool
      ensures Placed(slabs, large)
      ensures Gave(old(pages.vma.Intervals()), old(pages.paging.Free()), old(pages.paging.tables.mem), start, n)
    {
      assert Shown(large, 0);
      RangesSorted();
      assert K.PageRange(Interval(start, start + n * PAGE, 0));
      pages.FreePages(start, n);
      HeldCleared(slabs, large, old(pages.vma.Intervals()), old(pages.paging.tables.mem), pages.paging.tables.mem,
                  pages.paging.tables.base, pages.paging.pmm.totalFrames, start, n);
    }

    /** `kmalloc` of a small object: an object of cache `c`, with a fresh page if the cache has no
        free slot, and then every slot that fits in the cache's pages was live.  It fails exactly if
        there is none and no page or no record to be had, and then nothing has changed. */
    method MallocSmall(c: nat) returns (ptr: int)
      requires Valid() && c < S.CACHES
      modifies heap, heap.lists
      modifies pages.paging.tables`mem, pages.paging.pmm, pages.paging.pmm.bitmap, pages.paging.pmm.bitmap.bytes
      modifies pages.vma, pages.vma.pool
      ensures Valid()
      ensures ptr == NONE <==> !S.Stocked(old(heap.Now()), c) && (!old(Can(1)) || NoRecord(old(heap.Now())))
      ensures ptr == NONE ==>
                heap.Now() == old(heap.Now()) &&
                AsBefore(old(pages.vma.Intervals()), old(pages.paging.Free()), old(pages.paging.tables.mem))
      ensures ptr != NONE ==> Gained(old(heap.Now()), heap.Now(), ptr, c)
      ensures pages.paging.Free() != old(pages.paging.Free()) ==> U.Packed(old(heap.Now()), c)
      ensures ptr != NONE ==>
                if S.Stocked(old(heap.Now()), c) then
                  AsBefore(old(pages.vma.Intervals()), old(pages.paging.Free()), old(pages.paging.tables.mem))
                else
                  NewSlab(old(heap.Now()), old(pages.vma.Intervals()), old(pages.paging.Free()),
                          old(pages.paging.tables.mem))
    {
      var stocked := heap.HasStock(c);
      if stocked {
        ptr := MallocStocked(c);
      } else {
        U.PagesNeeded(heap.Now(), c);
        ptr := MallocFresh(c);
      }
    }

    method MallocStocked(c: nat) returns (ptr: int)
      requires Valid() && c < S.CACHES && S.Stocked(heap.Now(), c)
      modifies heap, heap.lists
      ensures Valid() && ptr != NONE && Gained(old(heap.Now()), heap.Now(), ptr, c)
    {
      ptr := heap.AllocFromCache(c, NONE);
    }

    /** The same for a cache without a free slot: the page is asked for before the record, and
        given back if there is no record. */
    method MallocFresh(c: nat) returns (ptr: int)
      requires Valid() && c < S.CACHES && !S.Stocked(heap.Now(), c)
      modifies heap, heap.lists
      modifies pages.paging.tables`mem, pages.paging.pmm, pages.paging.pmm.bitmap, pages.paging.pmm.bitmap.bytes
      modifies pages.vma, pages.vma.pool
      ensures Valid()
      ensures ptr == NONE <==> !old(Can(1)) || NoRecord(old(heap.Now()))
      ensures ptr == NONE ==>
                heap.Now() == old(heap.Now()) &&
                AsBefore(old(pages.vma.Intervals()), old(pages.paging.Free()), old(pages.paging.tables.mem))
      ensures ptr != NONE ==> Gained(old(heap.Now()), heap.Now(), ptr, c)
      ensures ptr != NONE ==>
                NewSlab(old(heap.Now()), old(pages.vma.Intervals()), old(pages.paging.Free()),
                        old(pages.paging.tables.mem))
    {
      ghost var slabs := S.Pages(heap.Now());
      var page;
      ghost var frames;
      page, frames := TakePages(1, slabs);
      if page == NONE {
        ptr := heap.AllocFromCache(c, NONE);
        return;
      }
      S.NewPageOutside(heap.Now(), page);
      ptr := heap.AllocFromCache(c, page);
      if ptr != NONE {
        PlacedSlab(slabs, large, page);
        assert frames == [frames[0]];
        assert Took(old(pages.vma.Intervals()), old(pages.paging.Free()), old(pages.paging.tables.mem), page);
      } else {
        Undo(page, slabs, frames, old(pages.vma.Intervals()), old(pages.paging.Free()), old(pages.paging.tables.mem));
      }
    }

    /** Gives back the range that was just taken. */
    method Undo(start: nat, ghost slabs: set<nat>, ghost frames: seq<nat>, ghost ivs: seq<Interval>,
                ghost free: set<nat>, ghost m: Memory)
      requires Placed(slabs, large) && |frames| == 1 && start !in slabs && start !in large
      requires Piece(pages.vma.Intervals(), pages.paging.tables.mem, pages.paging.tables.base,
                     pages.paging.pmm.totalFrames, start, 1)
      requires Undoable(ivs, free, m, start, frames)
      modifies pages.paging.tables`mem, pages.paging.pmm, pages.paging.pmm.bitmap, pages.paging.pmm.bitmap.bytes
      modifies pages.vma, pages.vma.pool
      ensures Placed(slabs, large) && |m| == |pages.paging.tables.mem| && AsBefore(ivs, free, m)
    {
      ghost var m1, s1, f1 := pages.paging.tables.mem, pages.vma.Intervals(), pages.paging.Free();
      DropPages(start, 1, slabs);
      TraceGone(ivs, free, m, s1, f1, m1, pages.vma.Intervals(), pages.paging.Free(), pages.paging.tables.mem,
                pages.paging.tables.base, pages.paging.pmm.totalFrames, start, frames);
    }

    /** `allocate_large`: whole pages, with the page count in front of the object. */
    method MallocLarge(size: nat) returns (ptr: int, ghost frames: seq<nat>)
      requires Valid() && size < U32
      modifies this, pages.paging.tables`mem, pages.paging.pmm, pages.paging.pmm.bitmap, pages.paging.pmm.bitmap.bytes
      modifies pages.vma, pages.vma.pool
      ensures Valid() && (ptr == NONE <==> !old(Can(LargePages(size))))
      ensures ptr == NONE ==>
                large == old(large) &&
                AsBefore(old(pages.vma.Intervals()), old(pages.paging.Free()), old(pages.paging.tables.mem))
      ensures ptr != NONE ==>
                LARGE_HEADER <= ptr && ptr - LARGE_HEADER !in old(large) && |frames| == LargePages(size) &&
                large == old(large)[ptr - LARGE_HEADER := LargePages(size)] &&
                Undoable(old(pages.vma.Intervals()), old(pages.paging.Free()), old(pages.paging.tables.mem),
                         ptr - LARGE_HEADER, frames)
      ensures ptr != NONE && old(pages.vma.Intervals()) == [] ==> ptr == A.DYNAMIC_BASE + LARGE_HEADER
    {
      var start;
      start, frames := TakePages(LargePages(size), S.Pages(heap.Now()));
      if start == NONE {
        return NONE, frames;
      }
      PlacedLarge(S.Pages(heap.Now()), large, start, LargePages(size));
      large := large[start := LargePages(size)];
      ptr := start + LARGE_HEADER;
    }

    /** `kmalloc`: NONE stands for the panic on exhaustion. */
    method Malloc(size: nat) returns (ptr: int)
      requires Valid() && size < U32
      modifies this, heap, heap.lists
      modifies pages.paging.tables`mem, pages.paging.pmm, pages.paging.pmm.bitmap, pages.paging.pmm.bitmap.bytes
      modifies pages.vma, pages.vma.pool
      ensures Valid()
      ensures size > 2048 ==> (ptr == NONE <==> !old(Can(LargePages(size))))
      ensures size <= 2048 ==>
                (ptr == NONE <==> exists c :: H.Fit(size, c) && !S.Stocked(old(heap.Now()), c) &&
                                              (!old(Can(1)) || NoRecord(old(heap.Now()))))
      ensures ptr == NONE ==>
                heap.Now() == old(heap.Now()) && large == old(large) &&
                AsBefore(old(pages.vma.Intervals()), old(pages.paging.Free()), old(pages.paging.tables.mem))
      ensures ptr != NONE && size <= 2048 ==>
                large == old(large) &&
                exists c :: H.Fit(size, c) && Gained(old(heap.Now()), heap.Now(), ptr, c) &&
                            if S.Stocked(old(heap.Now()), c) then
                              AsBefore(old(pages.vma.Intervals()), old(pages.paging.Free()),
                                       old(pages.paging.tables.mem))
                            else
                              NewSlab(old(heap.Now()), old(pages.vma.Intervals()), old(pages.paging.Free()),
                                      old(pages.paging.tables.mem))
      ensures ptr != NONE && size > 2048 ==>
                LARGE_HEADER <= ptr && ptr - LARGE_HEADER !in old(large) && heap.Now() == old(heap.Now()) &&
                large == old(large)[ptr - LARGE_HEADER := LargePages(size)] &&
                exists frames :: |frames| == LargePages(size) &&
                                 Undoable(old(pages.vma.Intervals()), old(pages.paging.Free()),
                                          old(pages.paging.tables.mem), ptr - LARGE_HEADER, frames)
    {
      var c := heap.CacheForSize(if size == 0 then 1 else size);
      if c != NONE {
        H.OneFit(size, c);
        ptr := MallocSmall(c);
      } else {
        ghost var frames;
        ptr, frames := MallocLarge(size);
      }
    }

    /** `kfree` of a live small object.  A page that its slab gives up goes back. */
    method FreeSmall(ptr: nat)
      requires Valid() && ptr >= S.HEADER && S.IsLive(heap.Now(), ptr - S.HEADER)
      modifies heap, heap.lists
      modifies pages.paging.tables`mem, pages.paging.pmm, pages.paging.pmm.bitmap, pages.paging.pmm.bitmap.bytes
      modifies pages.vma, pages.vma.pool
      ensures Valid() && S.Live(heap.Now()) == S.Live(old(heap.Now())) - {ptr - S.HEADER}
      ensures if GivesUp(old(heap.Now()), ptr - S.HEADER) then
                Gave(old(pages.vma.Intervals()), old(pages.paging.Free()), old(pages.paging.tables.mem),
                     S.SlabOf(old(heap.Now()), ptr - S.HEADER).page, 1)
              else AsBefore(old(pages.vma.Intervals()), old(pages.paging.Free()), old(pages.paging.tables.mem))
    {
      ghost var slabs := S.Pages(heap.Now());
      H.PageOfLive(heap.Now(), ptr - S.HEADER);
      ghost var own := S.SlabOf(heap.Now(), ptr - S.HEADER).page;
      PlacedLess(slabs, large, own);
      var page := heap.FreeObject(ptr - S.HEADER);
      if page != NONE {
        assert large - {own} == large;
        DropPages(page, 1, slabs - {own});
      }
    }

    /** `kfree` of a live large object.  It first looks for a slab header sixteen bytes in front of
        the object, which is eight bytes in front of its pages: `front` are the two words there.
        If that page is not mapped the kernel faults; if the words pass for a slab header, the
        object is taken for a slab's; otherwise exactly its range goes back. */
    method FreeLarge(ptr: nat, front: Front) returns (outcome: Outcome)
      requires Valid() && ptr >= LARGE_HEADER && ptr - LARGE_HEADER in large
      modifies this, pages.paging.tables`mem, pages.paging.pmm, pages.paging.pmm.bitmap, pages.paging.pmm.bitmap.bytes
      modifies pages.vma, pages.vma.pool
      ensures Valid() && A.DYNAMIC_BASE <= ptr
      ensures outcome == Faulted <==>
                K.PageOf(old(pages.paging.tables.mem), pages.paging.tables.base, ptr / PAGE - 1) == Miss
      ensures outcome == Mistaken <==>
                K.PageOf(old(pages.paging.tables.mem), pages.paging.tables.base, ptr / PAGE - 1) != Miss &&
                PassesForSlab(front)
      ensures outcome == Returned ==>
                var a, n := ptr - LARGE_HEADER, old(large)[ptr - LARGE_HEADER];
                large == old(large) - {a} &&
                Gave(old(pages.vma.Intervals()), old(pages.paging.Free()), old(pages.paging.tables.mem), a, n)
      ensures outcome != Returned ==>
                large == old(large) && pages.paging.tables.mem == old(pages.paging.tables.mem) &&
                pages.paging.Free() == old(pages.paging.Free()) && pages.vma.Intervals() == old(pages.vma.Intervals())
    {
      var a := ptr - LARGE_HEADER;
      LargeStart(a);
      var found, physical := pages.TranslatePage(a - 8);
      if !found {
        return Faulted;
      }
      if front.magic == SLAB_MAGIC && front.slab != 0 {
        return Mistaken;
      }
      ghost var slabs := S.Pages(heap.Now());
      PlacedLess(slabs, large, a);
      assert slabs - {a} == slabs;
      var n := large[a];
      large := large - {a};
      DropPages(a, n, slabs);
      return Returned;
    }

    /** An address is not behind a slab's header and a large header at once. */
    lemma {:induction false} NotBoth(ptr: nat)
      requires Valid() && ptr >= S.HEADER && S.IsLive(heap.Now(), ptr - S.HEADER)
      ensures ptr - LARGE_HEADER !in large
    {
      H.SlotHolds(heap.Now(), ptr - S.HEADER);
      if ptr - LARGE_HEADER in large {
        SmallApart(ptr - LARGE_HEADER, ptr - S.HEADER);
        assert false;
      }
    }

    /** `kfree` of null or of any live object. */
    method Free(ptr: nat, front: Front) returns (outcome: Outcome)
      requires Valid()
      requires ptr == 0 || (ptr >= S.HEADER && S.IsLive(heap.Now(), ptr - S.HEADER)) ||
               (ptr >= LARGE_HEADER && ptr - LARGE_HEADER in large)
      modifies this, heap, heap.lists
      modifies pages.paging.tables`mem, pages.paging.pmm, pages.paging.pmm.bitmap, pages.paging.pmm.bitmap.bytes
      modifies pages.vma, pages.vma.pool
      ensures Valid()
      ensures ptr == 0 ==>
                outcome == Returned && heap.Now() == old(heap.Now()) && large == old(large) &&
                AsBefore(old(pages.vma.Intervals()), old(pages.paging.Free()), old(pages.paging.tables.mem))
      ensures ptr >= S.HEADER && S.IsLive(old(heap.Now()), ptr - S.HEADER) ==>
                outcome == Returned && large == old(large) &&
                S.Live(heap.Now()) == S.Live(old(heap.Now())) - {ptr - S.HEADER} &&
                if GivesUp(old(heap.Now()), ptr - S.HEADER) then
                  Gave(old(pages.vma.Intervals()), old(pages.paging.Free()), old(pages.paging.tables.mem),
                       S.SlabOf(old(heap.Now()), ptr - S.HEADER).page, 1)
                else AsBefore(old(pages.vma.Intervals()), old(pages.paging.Free()), old(pages.paging.tables.mem))
      ensures ptr >= LARGE_HEADER && ptr - LARGE_HEADER in old(large) ==>
                A.DYNAMIC_BASE <= ptr && heap.Now() == old(heap.Now()) &&
                (outcome == Returned <==>
                  K.PageOf(old(pages.paging.tables.mem), pages.paging.tables.base, ptr / PAGE - 1) != Miss &&
                  !PassesForSlab(front)) &&
                if outcome == Returned then
                  large == old(large) - {ptr - LARGE_HEADER} &&
                  Gave(old(pages.vma.Intervals()), old(pages.paging.Free()), old(pages.paging.tables.mem),
                       ptr - LARGE_HEADER, old(large)[ptr - LARGE_HEADER])
                else
                  large == old(large) &&
                  AsBefore(old(pages.vma.Intervals()), old(pages.paging.Free()), old(pages.paging.tables.mem))
    {
      if ptr == 0 {
        return Returned;
      }
      if ptr >= S.HEADER && S.IsLive(heap.Now(), ptr - S.HEADER) { NotBoth(ptr); }
      if ptr >= LARGE_HEADER && ptr - LARGE_HEADER in large {
        outcome := FreeLarge(ptr, front);
      } else {
        FreeSmall(ptr);
        return Returned;
      }
    }

    /** A large object that is allocated and freed again, if the free returns, leaves no trace. */
    method LargeRoundTrip(size: nat, front: Front) returns (ptr: int, outcome: Outcome)
      requires Valid() && size < U32
      modifies this, pages.paging.tables`mem, pages.paging.pmm, pages.paging.pmm.bitmap, pages.paging.pmm.bitmap.bytes
      modifies pages.vma, pages.vma.pool
      ensures Valid() && (ptr == NONE <==> !old(Can(LargePages(size))))
      ensures ptr == NONE || outcome == Returned ==>
                large == old(large) &&
                AsBefore(old(pages.vma.Intervals()), old(pages.paging.Free()), old(pages.paging.tables.mem))
    {
      outcome := Returned;
      ghost var frames;
      ptr, frames := MallocLarge(size);
      if ptr != NONE {
        outcome := FreeFresh(ptr, front, frames, old(large), old(pages.vma.Intervals()), old(pages.paging.Free()),
                             old(pages.paging.tables.mem));
      }
    }

    method FreeFresh(ptr: nat, front: Front, ghost frames: seq<nat>, ghost was: map<nat, nat>, ghost ivs: seq<Interval>,
                     ghost free: set<nat>, ghost m: Memory) returns (outcome: Outcome)
      requires Valid() && ptr >= LARGE_HEADER && ptr - LARGE_HEADER !in was &&
        large == was[ptr - LARGE_HEADER := |frames|]
      requires Undoable(ivs, free, m, ptr - LARGE_HEADER, frames)
      modifies this, pages.paging.tables`mem, pages.paging.pmm, pages.paging.pmm.bitmap, pages.paging.pmm.bitmap.bytes
      modifies pages.vma, pages.vma.pool
      ensures Valid() && |m| == |pages.paging.tables.mem|
      ensures outcome == Returned ==> large == was && AsBefore(ivs, free, m)
    {
      ghost var m1, s1, f1 := pages.paging.tables.mem, pages.vma.Intervals(), pages.paging.Free();
      outcome := FreeLarge(ptr, front);
      if outcome == Returned {
        TraceGone(ivs, free, m, s1, f1, m1, pages.vma.Intervals(), pages.paging.Free(), pages.paging.tables.mem,
                  pages.paging.tables.base, pages.paging.pmm.totalFrames, ptr - LARGE_HEADER, frames);
      }
    }

    lemma {:induction false} LargeStart(a: nat)
      requires Valid() && a in large
      ensures A.DYNAMIC_BASE <= a < 0x1_0000_0000 && a % PAGE == 0
      ensures (a - 8) / PAGE == a / PAGE - 1 == (a + LARGE_HEADER) / PAGE - 1 && a / PAGE == (a + LARGE_HEADER) / PAGE
    {
      assert Shown(large, 0);
      assert K.PageRange(Interval(a, a + large[a] * PAGE, 0));
    }

    /** A large object at the bottom of the window can never be freed: nothing is ever mapped in
        front of it. */
    lemma {:induction false} LowestLargeFaults()
      requires Valid()
      ensures K.PageOf(pages.paging.tables.mem, pages.paging.tables.base, A.DYNAMIC_BASE / PAGE - 1) == Miss
    {
      assert Shown(large, 0) && P.Open(0);
    }

    /** The first large object, when nothing else is in the window, goes to its bottom. */
    method FirstLarge(size: nat) returns (ptr: nat)
      requires Valid() && size < U32 && pages.vma.Intervals() == [] && Can(LargePages(size))
      modifies this, pages.paging.tables`mem, pages.paging.pmm, pages.paging.pmm.bitmap, pages.paging.pmm.bitmap.bytes
      modifies pages.vma, pages.vma.pool
      ensures Valid() && ptr == A.DYNAMIC_BASE + LARGE_HEADER && A.DYNAMIC_BASE in large
    {
      var p;
      ghost var frames;
      p, frames := MallocLarge(size);
      ptr := p;
    }

    /** A large object at the bottom of the window cannot be freed, whatever lies in front of it. */
    method FreeLowest(front: Front) returns (outcome: Outcome)
      requires Valid() && A.DYNAMIC_BASE in large
      modifies this, pages.paging.tables`mem, pages.paging.pmm, pages.paging.pmm.bitmap, pages.paging.pmm.bitmap.bytes
      modifies pages.vma, pages.vma.pool
      ensures Valid() && outcome == Faulted && large == old(large)
    {
      LowestLargeFaults();
      outcome := FreeLarge(A.DYNAMIC_BASE + LARGE_HEADER, front);
    }

    /** A `kmalloc` and `kfree` that fail: a large object that is the first in the window can be had but
        not freed. */
    method FirstLargeFaults(size: nat, front: Front) returns (ptr: nat, outcome: Outcome)
      requires Valid() && size < U32 && pages.vma.Intervals() == [] && Can(LargePages(size))
      modifies this, pages.paging.tables`mem, pages.paging.pmm, pages.paging.pmm.bitmap, pages.paging.pmm.bitmap.bytes
      modifies pages.vma, pages.vma.pool
      ensures Valid() && ptr == A.DYNAMIC_BASE + LARGE_HEADER && outcome == Faulted
    {
      ptr := FirstLarge(size);
      outcome := FreeLowest(front);
    }

    /** Large objects share no byte with each other. */
    lemma {:induction false} LargeApart(a: nat, b: nat)
      requires Valid() && a in large && b in large && a != b
      ensures a + large[a] * PAGE <= b || b + large[b] * PAGE <= a
    {
      assert Shown(large, 0);
      RangesSorted();
      K.SortedApart(pages.vma.Intervals(), Interval(a, a + large[a] * PAGE, 0), Interval(b, b + large[b] * PAGE, 0));
    }

    /** Nor with a small one. */
    lemma {:induction false} SmallApart(a: nat, b: nat)
      requires Valid() && a in large && S.IsLive(heap.Now(), b)
      ensures b + S.SlotSize(S.SlabOf(heap.Now(), b).cache) <= a || a + large[a] * PAGE <= b
    {
      H.PageOfLive(heap.Now(), b);
      assert Shown(large, 0);
      RangesSorted();
      var page := S.SlabOf(heap.Now(), b).page;
      K.SortedApart(pages.vma.Intervals(), Interval(a, a + large[a] * PAGE, 0), Interval(page, page + PAGE, 0));
    }

    /** The pages of the heap are mapped to frames that are in use, hold no tables and lie behind
        no second page of the window. */
    lemma {:induction false} PagesBacked(a: nat, n: nat, p: nat, q: nat)
      requires Valid() && ((a in S.Pages(heap.Now()) && n == 1) || (a in large && n == large[a])) &&
        a / PAGE <= p < a / PAGE + n
      ensures Real(pages.paging.tables.mem, pages.paging.tables.base, pages.paging.pmm.totalFrames, p)
      ensures var f := K.PageOf(pages.paging.tables.mem, pages.paging.tables.base, p).frame;
              f !in pages.paging.Free() && f !in pages.paging.tables.owner &&
              (p != q && K.FIRST_PAGE <= q < K.LAST_PAGE ==>
                !Names(K.PageOf(pages.paging.tables.mem, pages.paging.tables.base, q), f))
    {
      assert Shown(large, 0);
      var m, base, total := pages.paging.tables.mem, pages.paging.tables.base, pages.paging.pmm.totalFrames;
      assert K.PageRange(Interval(a, a + n * PAGE, 0));
      assert Real(m, base, total, p);
      assert K.Managed(m, base, p, total);
      if K.FIRST_PAGE <= q < K.LAST_PAGE && Real(m, base, total, q) { assert K.Managed(m, base, q, total); }
    }
  }

  /** The words at a place in memory where `kfree` expects an object header. */
  datatype Front = Front(magic: nat, slab: nat)

  predicate PassesForSlab(f: Front) { f.magic == SLAB_MAGIC && f.slab != 0 }

  datatype Outcome = Returned | Faulted | Mistaken

  /** Freeing the object gives its slab's page up: it is the last in the slab, and the cache has an
      empty slab already. */
  ghost predicate GivesUp(s: S.State, a: nat)
    requires S.IsLive(s, a)
  {
    S.SlabOf(s, a).inUse == 1 && !S.NoEmpty(s, S.SlabOf(s, a).cache)
  }

  ghost predicate NoRecord(s: S.State) {
    forall x :: 0 <= x < |s.spots| ==> s.spots[x] != L.OnShelf(L.Spare)
  }
}
