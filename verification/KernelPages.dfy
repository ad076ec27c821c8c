/** The kernel page allocator: page ranges in the dynamic kernel window, backed frame by frame,
    with rollback when frames or range records run out. */
module KernelPages {
  import opened Bits
  import opened IntervalTree
  import opened GapSearch
  import opened PageTree
  import opened KernelHalf
  import opened PageRights
  import opened AddressSpaces
  import P = Paging
  import T = Teardown
  import V = VmaTree
  import VmaPool
  import Pmm

  const FIRST_PAGE: nat := DYNAMIC_BASE / PAGE_SIZE
  const LAST_PAGE: nat := DYNAMIC_LIMIT / PAGE_SIZE
  const KERNEL_PAGE: nat := KERNEL_VMA / PAGE_SIZE
  const PAGES: nat := 0x10_0000
  /** The entry bits of a page that the allocator backs. */
  const BACKED: bv12 := PRESENT | WRITABLE

  /** The lookup of a page of the kernel half. */
  function PageOf(mem: Memory, base: nat, p: nat): Lookup
    requires Tables(mem) && base + STATIC_FRAMES <= |mem|
  {
    KernelWalk(mem, base, p / ENTRIES % ENTRIES, p % ENTRIES)
  }

  /** The kernel pages `[first, first + |frames|)` are mapped to `frames`, all others are as in
      `m0`. */
  ghost predicate Backed(m0: Memory, m: Memory, base: nat, first: nat, frames: seq<nat>)
    requires Tables(m0) && Tables(m) && base + STATIC_FRAMES <= |m0| == |m|
  {
    forall p :: KERNEL_PAGE <= p < PAGES ==>
      PageOf(m, base, p) == if first <= p < first + |frames| then Hit(frames[p - first], BACKED)
                             else PageOf(m0, base, p)
  }

  /** The kernel pages `[first, first + n)` are unmapped, all others are as in `m0`. */
  ghost predicate Cleared(m0: Memory, m: Memory, base: nat, first: nat, n: nat)
    requires Tables(m0) && Tables(m) && base + STATIC_FRAMES <= |m0| == |m|
  {
    forall p :: KERNEL_PAGE <= p < PAGES ==>
      PageOf(m, base, p) == if first <= p < first + n then Miss else PageOf(m0, base, p)
  }

  /** The kernel pages `[first, first + n)` are unmapped. */
  ghost predicate VacantPages(m: Memory, base: nat, first: nat, n: nat)
    requires Tables(m) && base + STATIC_FRAMES <= |m|
  {
    forall p :: first <= p < first + n ==> PageOf(m, base, p) == Miss
  }

  ghost predicate SamePages(m0: Memory, m: Memory, base: nat)
    requires Tables(m0) && Tables(m) && base + STATIC_FRAMES <= |m0| == |m|
  {
    forall p :: KERNEL_PAGE <= p < PAGES ==> PageOf(m, base, p) == PageOf(m0, base, p)
  }

  /** Every mapped page of the dynamic window lies in a recorded range. */
  ghost predicate Covered(m: Memory, base: nat, s: seq<Interval>)
    requires Tables(m) && base + STATIC_FRAMES <= |m|
  {
    forall p :: FIRST_PAGE <= p < LAST_PAGE && PageOf(m, base, p) != Miss ==> InRange(s, p * PAGE_SIZE)
  }

  ghost predicate InRange(s: seq<Interval>, a: nat) {
    exists x :: x in s && x.start <= a < x.end
  }

  /** A range of `count` pages starting at `a` is free in the window. */
  ghost predicate Room(s: seq<Interval>, count: nat, a: nat) {
    Fits(s, DYNAMIC_BASE, DYNAMIC_LIMIT, count * PAGE_SIZE, PAGE_SIZE, a)
  }

  lemma {:induction false} RoomIsVacant(m: Memory, base: nat, s: seq<Interval>, count: nat, a: nat)
    requires Tables(m) && base + STATIC_FRAMES <= |m|
    requires Covered(m, base, s) && Room(s, count, a)
    ensures VacantPages(m, base, a / PAGE_SIZE, count) && a % PAGE_SIZE == 0
  {
    forall p | a / PAGE_SIZE <= p < a / PAGE_SIZE + count
      ensures PageOf(m, base, p) == Miss
    {
      assert a <= p * PAGE_SIZE < a + count * PAGE_SIZE;
      assert !InRange(s, p * PAGE_SIZE);
    }
  }

  lemma {:induction false} CoveredPlace(m0: Memory, m: Memory, base: nat, s: seq<Interval>, count: nat, a: nat,
                                        frames: seq<nat>)
    requires Tables(m0) && Tables(m) && base + STATIC_FRAMES <= |m0| == |m|
    requires Covered(m0, base, s) && a % PAGE_SIZE == 0 && |frames| == count
    requires Backed(m0, m, base, a / PAGE_SIZE, frames)
    ensures Covered(m, base, Place(s, Interval(a, a + count * PAGE_SIZE, 0)))
  {
    var iv := Interval(a, a + count * PAGE_SIZE, 0);
    PlaceElements(s, iv);
    forall p | FIRST_PAGE <= p < LAST_PAGE && PageOf(m, base, p) != Miss
      ensures InRange(Place(s, iv), p * PAGE_SIZE)
    {
      if a / PAGE_SIZE <= p < a / PAGE_SIZE + count {
        assert iv in Place(s, iv) && iv.start <= p * PAGE_SIZE < iv.end;
      } else {
        var x :| x in s && x.start <= p * PAGE_SIZE < x.end;
        assert x in Place(s, iv);
      }
    }
  }

  lemma {:induction false} CoveredSame(m0: Memory, m: Memory, base: nat, s: seq<Interval>)
    requires Tables(m0) && Tables(m) && base + STATIC_FRAMES <= |m0| == |m|
    requires Covered(m0, base, s) && SamePages(m0, m, base)
    ensures Covered(m, base, s)
  {
  }

  /** The managed frames, below `total`, behind the pages `[first, first + n)`. */
  ghost function Behind(m: Memory, base: nat, first: nat, n: nat, total: nat): set<nat>
    requires Tables(m) && base + STATIC_FRAMES <= |m|
  {
    set p | first <= p < first + n && PageOf(m, base, p).Hit? &&
    PageOf(m, base, p).frame < total :: PageOf(m, base, p).frame
  }

  lemma {:induction false} BehindOne(m: Memory, base: nat, p: nat, f: nat)
    requires Tables(m) && base + STATIC_FRAMES <= |m| && Names(PageOf(m, base, p), f)
    ensures forall total: nat :: Behind(m, base, p, 1, total) == if f < total then {f} else {}
  {
    forall total: nat ensures Behind(m, base, p, 1, total) == if f < total then {f} else {} {
      assert f < total ==> PageOf(m, base, p).frame in Behind(m, base, p, 1, total);
    }
  }

  lemma {:induction false} BehindNone(m: Memory, base: nat, p: nat)
    requires Tables(m) && base + STATIC_FRAMES <= |m| && PageOf(m, base, p) == Miss
    ensures forall total: nat :: Behind(m, base, p, 1, total) == {}
  {
  }

  lemma {:induction false} BehindMore(m: Memory, base: nat, first: nat, n: nat, total: nat)
    requires Tables(m) && base + STATIC_FRAMES <= |m|
    ensures Behind(m, base, first, n + 1, total) ==
        Behind(m, base, first, n, total) + Behind(m, base, first + n, 1, total)
  {
  }

  lemma {:induction false} BehindPart(m: Memory, base: nat, first: nat, n: nat, i: nat, total: nat)
    requires Tables(m) && base + STATIC_FRAMES <= |m| && i < n
    ensures Behind(m, base, first + i, 1, total) <= Behind(m, base, first, n, total)
  {
  }

  lemma {:induction false} ClearedMore(m0: Memory, m: Memory, m': Memory, base: nat, first: nat, n: nat)
    requires Tables(m0) && Tables(m) && Tables(m') && base + STATIC_FRAMES <= |m0| == |m| == |m'|
    requires KERNEL_PAGE <= first && Cleared(m0, m, base, first, n) && OnePage(m, m', base, first + n, Miss)
    ensures Cleared(m0, m', base, first, n + 1)
  {
  }

  lemma {:induction false} BehindKept(m0: Memory, m: Memory, base: nat, first: nat, n: nat, total: nat)
    requires Tables(m0) && Tables(m) && base + STATIC_FRAMES <= |m0| == |m|
    requires KERNEL_PAGE <= first && first + n < PAGES && Cleared(m0, m, base, first, n)
    ensures Behind(m, base, first + n, 1, total) == Behind(m0, base, first + n, 1, total)
    ensures PageOf(m, base, first + n) == PageOf(m0, base, first + n)
  {
  }

  /** What an allocation took is what lies behind its pages. */
  lemma {:induction false} BehindBacked(m0: Memory, m: Memory, base: nat, first: nat, frames: seq<nat>, total: nat)
    requires Tables(m0) && Tables(m) && base + STATIC_FRAMES <= |m0| == |m|
    requires KERNEL_PAGE <= first && first + |frames| <= PAGES && Backed(m0, m, base, first, frames)
    requires forall f :: f in frames ==> f < total
    ensures Behind(m, base, first, |frames|, total) == Elements(frames)
  {
    forall f | f in frames ensures f in Behind(m, base, first, |frames|, total) {
      var i :| 0 <= i < |frames| && frames[i] == f;
      assert Names(PageOf(m, base, first + i), f);
    }
  }

  /** Page `p` of the window is mapped to a frame that the frame allocator manages. */
  predicate Managed(m: Memory, base: nat, p: nat, total: nat)
    requires Tables(m) && base + STATIC_FRAMES <= |m|
  {
    FIRST_PAGE <= p < LAST_PAGE && PageOf(m, base, p).Hit? && PageOf(m, base, p).frame < total
  }

  /** The managed frames behind the window are in use, hold no tables, and lie behind one page
      each. */
  ghost predicate Exclusive(m: Memory, base: nat, owner: map<nat, Owner>, free: set<nat>, total: nat)
    requires Tables(m) && base + STATIC_FRAMES <= |m|
  {
    (forall p: nat :: Managed(m, base, p, total) ==> Outside(PageOf(m, base, p).frame, owner, free, base)) &&
    (forall p: nat, q: nat :: Managed(m, base, p, total) && Managed(m, base, q, total) && p != q ==>
      PageOf(m, base, p).frame != PageOf(m, base, q).frame)
  }

  ghost predicate Outside(f: nat, owner: map<nat, Owner>, free: set<nat>, base: nat) {
    f !in free && f !in owner && !(base <= f < base + STATIC_FRAMES)
  }

  /** Backing vacant pages with free frames. */
  lemma {:induction false} ExclusiveBacked(m0: Memory, m: Memory, base: nat, first: nat, frames: seq<nat>,
                                           owner: map<nat, Owner>, free0: set<nat>, free1: set<nat>, total: nat)
    requires Tables(m0) && Tables(m) && base + STATIC_FRAMES <= |m0| == |m|
    requires Exclusive(m0, base, owner, free0, total) && Backed(m0, m, base, first, frames)
    requires Taken(free0, frames, free1) && Loose(free0, owner, base)
    ensures Exclusive(m, base, owner, free1, total)
  {
    assert forall i :: 0 <= i < |frames| ==> frames[i] in Elements(frames);
    forall p: nat | Managed(m, base, p, total) ensures Outside(PageOf(m, base, p).frame, owner, free1, base) {
      if !(first <= p < first + |frames|) { assert Managed(m0, base, p, total); }
    }
    forall p: nat, q: nat | Managed(m, base, p, total) && Managed(m, base, q, total) && p != q
      ensures PageOf(m, base, p).frame != PageOf(m, base, q).frame
    {
      var here, there := first <= p < first + |frames|, first <= q < first + |frames|;
      if !here { assert Managed(m0, base, p, total); }
      if !there { assert Managed(m0, base, q, total); }
      if here && there { assert frames[p - first] != frames[q - first]; }
    }
  }

  /** Unmapping pages and freeing the frames behind them. */
  lemma {:induction false} ExclusiveCleared(m0: Memory, m: Memory, base: nat, first: nat, n: nat,
                                            owner: map<nat, Owner>, free: set<nat>, total: nat)
    requires Tables(m0) && Tables(m) && base + STATIC_FRAMES <= |m0| == |m|
    requires Exclusive(m0, base, owner, free, total) && Cleared(m0, m, base, first, n)
    requires FIRST_PAGE <= first && first + n <= LAST_PAGE
    ensures Exclusive(m, base, owner, free + Behind(m0, base, first, n, total), total)
  {
    var gone := Behind(m0, base, first, n, total);
    forall p: nat | Managed(m, base, p, total)
      ensures Managed(m0, base, p, total) && PageOf(m0, base, p) == PageOf(m, base, p)
      ensures Outside(PageOf(m, base, p).frame, owner, free + gone, base)
    {
      assert Managed(m0, base, p, total);
      forall q | first <= q < first + n && PageOf(m0, base, q).Hit? && PageOf(m0, base, q).frame < total
        ensures PageOf(m0, base, q).frame != PageOf(m, base, p).frame
      {
        assert Managed(m0, base, q, total);
      }
    }
  }

  lemma {:induction false} ExclusiveSame(m0: Memory, m: Memory, base: nat, owner: map<nat, Owner>, free: set<nat>,
                                         total: nat)
    requires Tables(m0) && Tables(m) && base + STATIC_FRAMES <= |m0| == |m|
    requires Exclusive(m0, base, owner, free, total) && SamePages(m0, m, base)
    ensures Exclusive(m, base, owner, free, total)
  {
    forall p: nat | Managed(m, base, p, total) ensures Managed(m0, base, p, total) {}
  }

  /** Mapping and unmapping user pages, in any space, and creating spaces do not touch the
      window's frames: table frames come from the free ones and go back there. */
  lemma {:induction false} ExclusiveUser(a: Snap, b: Snap, base: nat, s: nat, total: nat)
    requires Tables(a.mem) && Tables(b.mem) && base + STATIC_FRAMES <= |a.mem| == |b.mem|
    requires Exclusive(a.mem, base, a.owner, a.free, total) && KernelOk(a.mem, base)
    requires KernelFramesKept(a.mem, b.mem, base) && Conserves(a.owner, b.owner, a.free, b.free, s)
    ensures Exclusive(b.mem, base, b.owner, b.free, total) && SamePages(a.mem, b.mem, base)
  {
    forall p | KERNEL_PAGE <= p < PAGES ensures PageOf(b.mem, base, p) == PageOf(a.mem, base, p) {
      KernelKept(a.mem, b.mem, base);
    }
    forall f: nat ensures f in b.free || f in b.owner ==> f in a.free || f in a.owner {
      assert f in b.free + b.owner.Keys <==> f in a.free + a.owner.Keys;
    }
    forall p: nat | Managed(b.mem, base, p, total) ensures Managed(a.mem, base, p, total) {}
  }

  /** The frames behind two ranges that share no page are different frames. */
  lemma {:induction false} RangesShareNoFrame(m: Memory, base: nat, owner: map<nat, Owner>, free: set<nat>, total: nat,
                                              s: seq<Interval>, x: Interval, y: Interval)
    requires Tables(m) && base + STATIC_FRAMES <= |m| && Exclusive(m, base, owner, free, total)
    requires Sorted(s) && x in s && y in s && x != y && PageRange(x) && PageRange(y)
    ensures BehindRange(m, base, x, total) !! BehindRange(m, base, y, total)
  {
    SortedApart(s, x, y);
    forall p, q | x.start / PAGE_SIZE <= p < x.end / PAGE_SIZE && PageOf(m, base, p).Hit? && PageOf(m, base,
        p).frame < total &&
                  y.start / PAGE_SIZE <= q < y.end / PAGE_SIZE && PageOf(m, base, q).Hit? &&
                  PageOf(m, base, q).frame < total
      ensures PageOf(m, base, p).frame != PageOf(m, base, q).frame
    {
      assert Managed(m, base, p, total) && Managed(m, base, q, total);
    }
  }

  /** A range of whole pages in the window. */
  predicate PageRange(x: Interval) {
    x.start % PAGE_SIZE == 0 && x.end % PAGE_SIZE == 0 && DYNAMIC_BASE <= x.start <= x.end <= DYNAMIC_LIMIT
  }

  ghost function BehindRange(m: Memory, base: nat, x: Interval, total: nat): set<nat>
    requires Tables(m) && base + STATIC_FRAMES <= |m|
  {
    if x.start <= x.end then Behind(m, base, x.start / PAGE_SIZE, x.end / PAGE_SIZE - x.start / PAGE_SIZE,
                                    total) else {}
  }

  lemma {:induction false} SortedApart(s: seq<Interval>, x: Interval, y: Interval)
    requires Sorted(s) && x in s && y in s && x != y
    ensures Disjoint(x, y)
  {
  }

  lemma {:induction false} WindowLoose(m: Memory, base: nat, owner: map<nat, Owner>, free: set<nat>, total: nat,
                                       first: nat, n: nat)
    requires Tables(m) && base + STATIC_FRAMES <= |m| && Exclusive(m, base, owner, free, total)
    requires FIRST_PAGE <= first && first + n <= LAST_PAGE
    ensures Loose(Behind(m, base, first, n, total), owner, base) && Behind(m, base, first, n, total) !! free
  {
    forall f | f in Behind(m, base, first, n, total) ensures Outside(f, owner, free, base) {
      var p :| first <= p < first + n && PageOf(m, base, p).Hit? && PageOf(m, base, p).frame == f;
      assert Managed(m, base, p, total);
    }
  }

  /** Freeing what was allocated: pages, frames and ranges are back as they were. */
  lemma {:induction false} FreeUndoesAlloc(m0: Memory, m1: Memory, m2: Memory, base: nat, s0: seq<Interval>,
                                           s1: seq<Interval>, s2: seq<Interval>, start: nat, count: nat,
                                           frames: seq<nat>, free0: set<nat>, free1: set<nat>, free2: set<nat>,
                                           total: nat)
    requires Tables(m0) && Tables(m1) && Tables(m2) && base + STATIC_FRAMES <= |m0| == |m1| == |m2|
    requires Covered(m0, base, s0) && Sorted(s0) && |frames| == count > 0 && Room(s0, count, start)
    requires Taken(free0, frames, free1) && (forall f :: f in free0 ==> f < total)
    requires Backed(m0, m1, base, start / PAGE_SIZE, frames)
    requires Cleared(m1, m2, base, start / PAGE_SIZE, count)
    requires free2 == free1 + Behind(m1, base, start / PAGE_SIZE, count, total)
    requires s1 == Place(s0, Interval(start, start + count * PAGE_SIZE, 0))
    requires s2 == Take(s1, start, start + count * PAGE_SIZE)
    ensures SamePages(m0, m2, base) && free2 == free0 && s2 == s0
  {
    RoomIsVacant(m0, base, s0, count, start);
    assert forall f :: f in frames ==> f in Elements(frames);
    BehindBacked(m0, m1, base, start / PAGE_SIZE, frames, total);
    TakeUndoesPlace(s0, Interval(start, start + count * PAGE_SIZE, 0));
  }

  lemma {:induction false} CoveredTake(m0: Memory, m: Memory, base: nat, s: seq<Interval>, a: nat, count: nat)
    requires Tables(m0) && Tables(m) && base + STATIC_FRAMES <= |m0| == |m|
    requires Covered(m0, base, s) && PageRanges(s) && Cleared(m0, m, base, a / PAGE_SIZE, count)
    ensures Covered(m, base, Take(s, a, a + count * PAGE_SIZE))
  {
    var end := a + count * PAGE_SIZE;
    forall p | FIRST_PAGE <= p < LAST_PAGE && PageOf(m, base, p) != Miss
      ensures InRange(Take(s, a, end), p * PAGE_SIZE)
    {
      var x :| x in s && x.start <= p * PAGE_SIZE < x.end;
      TakeKeeps(s, a, end, x);
    }
  }

  ghost predicate PageRanges(s: seq<Interval>) {
    forall x :: x in s ==> PageRange(x)
  }

  lemma {:induction false} PageRangesPlace(s: seq<Interval>, count: nat, a: nat)
    requires PageRanges(s) && Room(s, count, a)
    ensures PageRanges(Place(s, Interval(a, a + count * PAGE_SIZE, 0)))
  {
    PlaceElements(s, Interval(a, a + count * PAGE_SIZE, 0));
  }

  lemma {:induction false} TakeElements(s: seq<Interval>, start: nat, end: nat)
    ensures forall x :: x in Take(s, start, end) ==> x in s
  {
    if s != [] { TakeElements(s[1..], start, end); }
  }

  lemma {:induction false} TakeKeeps(s: seq<Interval>, start: nat, end: nat, x: Interval)
    requires x in s && !(x.start == start && x.end == end)
    ensures x in Take(s, start, end)
  {
    if !(s[0].start == start && s[0].end == end) && x != s[0] {
      TakeKeeps(s[1..], start, end, x);
    }
  }

  /** A kernel-half change of one slot, seen by page. */
  ghost predicate OnePage(a: Memory, b: Memory, base: nat, page: nat, l: Lookup)
    requires Tables(a) && Tables(b) && base + STATIC_FRAMES <= |a| == |b|
  {
    forall p :: KERNEL_PAGE <= p < PAGES ==> PageOf(b, base, p) == if p == page then l else PageOf(a, base, p)
  }

  lemma {:induction false} SlotIsPage(a: Memory, b: Memory, base: nat, page: nat, l: Lookup)
    requires Tables(a) && Tables(b) && base + STATIC_FRAMES <= |a| == |b|
    requires KERNEL_PAGE <= page < PAGES
    requires OneKernelWalk(a, b, base, page / ENTRIES % ENTRIES, page % ENTRIES, l)
    ensures OnePage(a, b, base, page, l)
  {
    forall p | KERNEL_PAGE <= p < PAGES
      ensures PageOf(b, base, p) == if p == page then l else PageOf(a, base, p)
    {
      assert p / ENTRIES / ENTRIES == page / ENTRIES / ENTRIES == 3;
    }
  }

  lemma {:induction false} BackedMore(m0: Memory, m: Memory, m': Memory, base: nat, first: nat, frames: seq<nat>,
                                      f: nat)
    requires Tables(m0) && Tables(m) && Tables(m') && base + STATIC_FRAMES <= |m0| == |m| == |m'|
    requires KERNEL_PAGE <= first && Backed(m0, m, base, first, frames)
    requires OnePage(m, m', base, first + |frames|, Hit(f, BACKED))
    ensures Backed(m0, m', base, first, frames + [f])
  {
  }

  lemma {:induction false} BackedLess(m0: Memory, m: Memory, m': Memory, base: nat, first: nat, frames: seq<nat>)
    requires Tables(m0) && Tables(m) && Tables(m') && base + STATIC_FRAMES <= |m0| == |m| == |m'|
    requires KERNEL_PAGE <= first && frames != [] && first + |frames| <= PAGES && Backed(m0, m, base, first, frames)
    requires PageOf(m0, base, first + |frames| - 1) == Miss
    requires OnePage(m, m', base, first + |frames| - 1, Miss)
    ensures Backed(m0, m', base, first, frames[..|frames| - 1])
  {
  }

  // ------------------------------------------------------------------------------------
  // Frames taken for a range
  // ------------------------------------------------------------------------------------

  function Elements(s: seq<nat>): set<nat> { set x | x in s }

  /** The frames are distinct, came from `free`, and what is left is `now`. */
  ghost predicate Taken(free: set<nat>, frames: seq<nat>, now: set<nat>) {
    (forall i, j :: 0 <= i < j < |frames| ==> frames[i] != frames[j]) &&
    Elements(frames) <= free && now == free - Elements(frames)
  }

  lemma {:induction false} TakenMore(free: set<nat>, frames: seq<nat>, now: set<nat>, f: nat)
    requires Taken(free, frames, now) && f in now
    ensures Taken(free, frames + [f], now - {f}) && |now - {f}| == |now| - 1
  {
  }

  lemma {:induction false} TakenLess(free: set<nat>, frames: seq<nat>, now: set<nat>)
    requires Taken(free, frames, now) && frames != []
    ensures Taken(free, frames[..|frames| - 1], now + {frames[|frames| - 1]})
  {
    var n := |frames| - 1;
    assert frames == frames[..n] + [frames[n]];
    assert Elements(frames) == Elements(frames[..n]) + {frames[n]};
  }

  /** The frame allocator's states while it hands out the frames for the node, one after the other. */
  ghost predicate Line(desks: seq<Pmm.Desk>, node: nat, frames: seq<nat>) {
    |desks| == |frames| + 1 && forall i :: 0 <= i < |frames| ==> Pmm.Hands(desks[i], desks[i + 1], node, frames[i])
  }

  /** Such states lead from `d` to `e`; written behind `Open` like `Paging.Sealed`. */
  ghost predicate InLine(d: Pmm.Desk, e: Pmm.Desk, node: nat, frames: seq<nat>) {
    forall k :: P.Open(k) ==> exists desks :: Line(desks, node, frames) && desks[0] == d && desks[|frames|] == e
  }

  lemma {:induction false} InLineNone(d: Pmm.Desk, node: nat)
    ensures InLine(d, d, node, [])
  {
    assert Line([d], node, []);
  }

  lemma {:induction false} InLineMore(d: Pmm.Desk, m: Pmm.Desk, e: Pmm.Desk, node: nat, frames: seq<nat>, f: nat)
    requires InLine(d, m, node, frames) && Pmm.Hands(m, e, node, f)
    ensures InLine(d, e, node, frames + [f])
  {
    assert P.Open(0);
    var desks :| Line(desks, node, frames) && desks[0] == d && desks[|frames|] == m;
    assert Line(desks + [e], node, frames + [f]);
  }

  lemma {:induction false} TakenNone(free: set<nat>)
    ensures Taken(free, [], free)
  {
  }

  lemma {:induction false} TakenSize(free: set<nat>, frames: seq<nat>, now: set<nat>)
    requires Taken(free, frames, now)
    ensures |now| == |free| - |frames|
  {
    if frames != [] {
      var n := |frames| - 1;
      TakenLess(free, frames, now);
      TakenSize(free, frames[..n], now + {frames[n]});
      assert frames[n] !in now;
    } else {
      assert now == free;
    }
  }

  class PageAllocator {
    const paging: P.Paging
    const vma: V.VmaTree

    /** With an empty range tree and no page of the window mapped, the allocator is in order. */
    constructor (paging: P.Paging, vma: V.VmaTree)
      requires paging.Valid() && vma.Valid() && vma.Intervals() == []
      requires VacantPages(paging.tables.mem, paging.tables.base, FIRST_PAGE, LAST_PAGE - FIRST_PAGE)
      ensures Valid() && this.paging == paging && this.vma == vma
    {
      this.paging, this.vma := paging, vma;
    }

    /** Frames and tables are consistent; like `Ranged`, most of it under a guard. */
    ghost predicate Paged()
      reads paging.pmm, paging.pmm.bitmap, paging.pmm.bitmap.bytes, paging.tables
    {
      paging.pmm.totalFrames <= |paging.pmm.bitmap.bits| && Tables(paging.tables.mem) &&
      |paging.tables.mem| == DIRECT_MAP_FRAMES &&
      paging.tables.base + STATIC_FRAMES <= DIRECT_MAP_FRAMES &&
      forall k :: P.Open(k) ==> paging.Valid()
    }

    lemma {:induction false} FreeFrames()
      requires Paged()
      ensures Loose(paging.Free(), paging.tables.owner, paging.tables.base)
      ensures forall f :: f in paging.Free() ==> f < paging.pmm.totalFrames
    {
      assert P.Open(0);
    }

    /** Maps a kernel page.  Only page-aligned addresses of the dynamic window are accepted, and
        not for user mode; then that page's lookup changes and no other. */
    method MapPage(va: nat, physical: nat, flags: bv12) returns (ok: bool)
      requires Paged() && va < 0x1_0000_0000
      modifies paging.tables`mem
      ensures Paged() && SameWalks(old(paging.tables.mem), paging.tables.mem, paging.Roots())
      ensures ok <==> DYNAMIC_BASE <= va < DYNAMIC_LIMIT && flags & USER == 0 &&
                      va % PAGE_SIZE == 0 && physical % PAGE_SIZE == 0
      ensures ok ==>
          OnePage(old(paging.tables.mem), paging.tables.mem, paging.tables.base, va / PAGE_SIZE,
                  Hit(physical / PAGE_SIZE, PRESENT | flags)) &&
          KernelPermitted(old(paging.tables.mem), paging.tables.mem, paging.tables.base, DirectoryIndex(va),
                          TableIndex(va), flags) &&
          SameRights(old(paging.tables.mem), paging.tables.mem, paging.Roots())
      ensures !ok ==> paging.tables.mem == old(paging.tables.mem)
    {
      assert P.Open(0);
      if va < KERNEL_VMA || flags & USER != 0 {
        return false;
      }
      if va % PAGE_SIZE != 0 || physical % PAGE_SIZE != 0 {
        return false;
      }
      if !(DYNAMIC_BASE <= va < DYNAMIC_LIMIT) || PdptIndex(va) != KERNEL_SLOT {
        return false;
      }
      DynamicSlots(va);
      SlotsOfPage(va);
      paging.tables.MapKernel(DirectoryIndex(va), TableIndex(va), physical / PAGE_SIZE, flags, paging.Free());
      SlotIsPage(old(paging.tables.mem), paging.tables.mem, paging.tables.base, va / PAGE_SIZE,
                 Hit(physical / PAGE_SIZE, PRESENT | flags));
      return true;
    }

    /** Unmaps a page of the dynamic window; other addresses are left alone. */
    method UnmapPage(va: nat)
      requires Paged() && va < 0x1_0000_0000
      modifies paging.tables`mem
      ensures Paged() && SameWalks(old(paging.tables.mem), paging.tables.mem, paging.Roots())
      ensures if DYNAMIC_BASE <= va < DYNAMIC_LIMIT
              then OnePage(old(paging.tables.mem), paging.tables.mem, paging.tables.base, va / PAGE_SIZE, Miss) &&
                   KernelWithdrawn(old(paging.tables.mem), paging.tables.mem, paging.tables.base, DirectoryIndex(va),
                                   TableIndex(va)) &&
                   SameRights(old(paging.tables.mem), paging.tables.mem, paging.Roots())
              else paging.tables.mem == old(paging.tables.mem)
    {
      assert P.Open(0);
      if !(DYNAMIC_BASE <= va < DYNAMIC_LIMIT) || PdptIndex(va) != KERNEL_SLOT {
        if DYNAMIC_BASE <= va < DYNAMIC_LIMIT { DynamicSlots(va); }
        return;
      }
      DynamicSlots(va);
      SlotsOfPage(va);
      paging.tables.UnmapKernel(DirectoryIndex(va), TableIndex(va), paging.Free());
      SlotIsPage(old(paging.tables.mem), paging.tables.mem, paging.tables.base, va / PAGE_SIZE, Miss);
    }

    /** The frame behind a kernel page, walked in the current space. */
    method TranslatePage(va: nat) returns (found: bool, physical: nat)
      requires Paged() && KERNEL_VMA <= va < 0x1_0000_0000
      ensures var l := PageOf(paging.tables.mem, paging.tables.base, va / PAGE_SIZE);
              if found then Names(l, physical / PAGE_SIZE) else l == Miss
    {
      assert P.Open(0);
      SlotsOfPage(va);
      var root := paging.tables.spaces[paging.tables.current].root;
      WalksAgree(paging.tables.mem, paging.Roots(), paging.tables.owner, paging.tables.base,
                 paging.tables.current, DirectoryIndex(va), TableIndex(va));
      match Translate(paging.tables.mem, root, va)
      case Unmapped => return false, 0;
      case At(address) => return true, address;
    }

    /** Backs one page with a fresh frame. */
    method BackPage(va: nat, node: nat) returns (ok: bool, ghost f: nat)
      requires Paged() && DYNAMIC_BASE <= va < DYNAMIC_LIMIT && va % PAGE_SIZE == 0
      modifies paging.tables`mem, paging.pmm, paging.pmm.bitmap, paging.pmm.bitmap.bytes
      ensures Paged() && paging.pmm.initialized == old(paging.pmm.initialized)
      ensures SameWalks(old(paging.tables.mem), paging.tables.mem, paging.Roots())
      ensures ok <==> paging.pmm.initialized && old(paging.Free()) != {}
      ensures ok ==> f in old(paging.Free()) && paging.Free() == old(paging.Free()) - {f}
      ensures ok ==> Pmm.Hands(old(paging.pmm.Now()), paging.pmm.Now(), node, f)
      ensures ok ==> OnePage(old(paging.tables.mem), paging.tables.mem, paging.tables.base, va / PAGE_SIZE,
                             Hit(f, BACKED))
      ensures !ok ==> paging.Free() == old(paging.Free()) && paging.tables.mem == old(paging.tables.mem)
    {
      assert P.Open(0);
      var frame;
      ok, frame := paging.TakeFrameOn(node);
      f := frame;
      if !ok {
        return;
      }
      Pmm.FrameAddress(frame);
      WritableOnly();
      var mapped := MapPage(va, frame * PAGE_SIZE, WRITABLE);
      // A whole frame and a page of the window: the map cannot be refused here.
      assert mapped;
    }

    /** Backs the pages of a range from its start on until a frame cannot be had. */
    method BackRange(start: nat, count: nat, node: nat) returns (mapped: nat, ghost frames: seq<nat>)
      requires Paged() && DYNAMIC_BASE <= start && start + count * PAGE_SIZE <= DYNAMIC_LIMIT && start % PAGE_SIZE == 0
      modifies paging.tables`mem, paging.pmm, paging.pmm.bitmap, paging.pmm.bitmap.bytes
      ensures Paged() && paging.pmm.initialized == old(paging.pmm.initialized)
      ensures SameWalks(old(paging.tables.mem), paging.tables.mem, paging.Roots())
      ensures mapped == |frames| <= count && Taken(old(paging.Free()), frames, paging.Free())
      ensures Backed(old(paging.tables.mem), paging.tables.mem, paging.tables.base, start / PAGE_SIZE, frames)
      ensures mapped == count ==> InLine(old(paging.pmm.Now()), paging.pmm.Now(), node, frames)
      ensures mapped < count ==> !paging.pmm.initialized || paging.Free() == {}
    {
      mapped, frames := 0, [];
      TakenNone(paging.Free());
      InLineNone(paging.pmm.Now(), node);
      while mapped < count
        invariant Paged() && paging.pmm.initialized == old(paging.pmm.initialized)
        invariant SameWalks(old(paging.tables.mem), paging.tables.mem, paging.Roots())
        invariant mapped == |frames| <= count && Taken(old(paging.Free()), frames, paging.Free())
        invariant Backed(old(paging.tables.mem), paging.tables.mem, paging.tables.base, start / PAGE_SIZE, frames)
        invariant InLine(old(paging.pmm.Now()), paging.pmm.Now(), node, frames)
      {
        ghost var m1, f1, desk := paging.tables.mem, paging.Free(), paging.pmm.Now();
        PageInRange(start, mapped, count);
        var ok;
        ghost var f;
        ok, f := BackPage(start + mapped * PAGE_SIZE, node);
        if !ok {
          return;
        }
        BackedMore(old(paging.tables.mem), m1, paging.tables.mem, paging.tables.base, start / PAGE_SIZE, frames, f);
        TakenMore(old(paging.Free()), frames, f1, f);
        InLineMore(old(paging.pmm.Now()), desk, paging.pmm.Now(), node, frames, f);
        frames := frames + [f];
        mapped := mapped + 1;
      }
    }

    /** Undoes the last `mapped` steps of a range that was vacant before. */
    method Rollback(start: nat, count: nat, ghost frames: seq<nat>, ghost m0: Memory, ghost free0: set<nat>)
      requires Paged() && DYNAMIC_BASE <= start && start + count * PAGE_SIZE <= DYNAMIC_LIMIT && start % PAGE_SIZE == 0
      requires count == |frames| && Tables(m0) && |m0| == |paging.tables.mem|
      requires Taken(free0, frames, paging.Free()) && Loose(free0, paging.tables.owner, paging.tables.base)
      requires forall f :: f in free0 ==> f < paging.pmm.totalFrames
      requires Backed(m0, paging.tables.mem, paging.tables.base, start / PAGE_SIZE, frames)
      requires VacantPages(m0, paging.tables.base, start / PAGE_SIZE, count)
      modifies paging.tables`mem, paging.pmm, paging.pmm.bitmap, paging.pmm.bitmap.bytes
      ensures Paged() && paging.pmm.initialized == old(paging.pmm.initialized)
      ensures SameWalks(old(paging.tables.mem), paging.tables.mem, paging.Roots())
      ensures paging.Free() == free0 && SamePages(m0, paging.tables.mem, paging.tables.base)
    {
      var mapped := count;
      ghost var left := frames;
      while mapped > 0
        invariant Paged() && paging.pmm.initialized == old(paging.pmm.initialized)
        invariant SameWalks(old(paging.tables.mem), paging.tables.mem, paging.Roots())
        invariant mapped == |left| <= count && Taken(free0, left, paging.Free())
        invariant Backed(m0, paging.tables.mem, paging.tables.base, start / PAGE_SIZE, left)
      {
        mapped := mapped - 1;
        PageInRange(start, mapped, count);
        UndoPage(start + mapped * PAGE_SIZE, left, m0, free0, start / PAGE_SIZE);
        left := left[..mapped];
      }
    }

    method GiveFrame(physical: nat)
      requires Paged()
      requires physical / PAGE_SIZE < paging.pmm.totalFrames ==>
                 Loose({physical / PAGE_SIZE}, paging.tables.owner, paging.tables.base)
      modifies paging.pmm, paging.pmm.bitmap, paging.pmm.bitmap.bytes
      ensures Paged() && paging.pmm.initialized == old(paging.pmm.initialized)
      ensures paging.Free() == old(paging.Free()) +
                if physical / PAGE_SIZE < paging.pmm.totalFrames then {physical / PAGE_SIZE} else {}
    {
      assert P.Open(0);
      paging.GiveFrame(physical);
    }

    /** Frees the frame behind one page and unmaps it, if it is mapped. */
    method FreePage(va: nat)
      requires Paged() && DYNAMIC_BASE <= va < DYNAMIC_LIMIT
      requires Loose(Behind(paging.tables.mem, paging.tables.base, va / PAGE_SIZE, 1, paging.pmm.totalFrames),
                     paging.tables.owner, paging.tables.base)
      modifies paging.tables`mem, paging.pmm, paging.pmm.bitmap, paging.pmm.bitmap.bytes
      ensures Paged() && paging.pmm.initialized == old(paging.pmm.initialized)
      ensures SameWalks(old(paging.tables.mem), paging.tables.mem, paging.Roots())
      ensures OnePage(old(paging.tables.mem), paging.tables.mem, paging.tables.base, va / PAGE_SIZE, Miss)
      ensures paging.Free() == old(paging.Free()) +
                Behind(old(paging.tables.mem), paging.tables.base, va / PAGE_SIZE, 1, paging.pmm.totalFrames)
    {
      var found, physical := TranslatePage(va);
      if found {
        BehindOne(paging.tables.mem, paging.tables.base, va / PAGE_SIZE, physical / PAGE_SIZE);
        GiveFrame(physical);
        UnmapPage(va);
      } else {
        BehindNone(paging.tables.mem, paging.tables.base, va / PAGE_SIZE);
      }
    }

    /** Frees the frame behind the last page of a partly backed range and unmaps the page. */
    method UndoPage(va: nat, ghost frames: seq<nat>, ghost m0: Memory, ghost free0: set<nat>, ghost first: nat)
      requires Paged() && DYNAMIC_BASE <= va < DYNAMIC_LIMIT
      requires frames != [] && va / PAGE_SIZE == first + |frames| - 1 && KERNEL_PAGE <= first
      requires Tables(m0) && |m0| == |paging.tables.mem|
      requires Taken(free0, frames, paging.Free()) && Loose(free0, paging.tables.owner, paging.tables.base)
      requires forall f :: f in free0 ==> f < paging.pmm.totalFrames
      requires Backed(m0, paging.tables.mem, paging.tables.base, first, frames)
      requires PageOf(m0, paging.tables.base, va / PAGE_SIZE) == Miss
      modifies paging.tables`mem, paging.pmm, paging.pmm.bitmap, paging.pmm.bitmap.bytes
      ensures Paged() && paging.pmm.initialized == old(paging.pmm.initialized)
      ensures SameWalks(old(paging.tables.mem), paging.tables.mem, paging.Roots())
      ensures Taken(free0, frames[..|frames| - 1], paging.Free())
      ensures Backed(m0, paging.tables.mem, paging.tables.base, first, frames[..|frames| - 1])
    {
      ghost var m1, f := paging.tables.mem, frames[|frames| - 1];
      assert PageOf(m1, paging.tables.base, va / PAGE_SIZE) == Hit(f, BACKED);
      TakenLess(free0, frames, paging.Free());
      assert f in Elements(frames);
      BehindOne(m1, paging.tables.base, va / PAGE_SIZE, f);
      FreePage(va);
      BackedLess(m0, m1, paging.tables.mem, paging.tables.base, first, frames);
    }

    /** The range tree is well formed; stated under a guard so that its shape stays out of
        proofs that do not look at it. */
    ghost predicate Ranged()
      reads vma, vma.pool
    {
      forall k :: P.Open(k) ==> vma.Valid()
    }

    /** The lowest free range of `count` pages. */
    method FindRoom(count: nat) returns (found: bool, start: nat)
      requires Ranged() && count > 0
      ensures found <==> exists a :: Room(vma.Intervals(), count, a)
      ensures found ==>
          Room(vma.Intervals(), count, start) && forall a :: Room(vma.Intervals(), count, a) ==> start <= a
    {
      var span := count * PAGE_SIZE;
      if span > DYNAMIC_LIMIT - DYNAMIC_BASE {
        assert forall a :: !Room(vma.Intervals(), count, a);
        return false, 0;
      }
      PageAligned();
      assert P.Open(0);
      found, start := vma.FindGap(DYNAMIC_BASE, DYNAMIC_LIMIT, span, PAGE_SIZE);
      assert found ==> Room(vma.Intervals(), count, start);
    }

    /** Records a free range. */
    method Record(start: nat, count: nat) returns (ok: bool)
      requires Ranged() && count > 0 && Room(vma.Intervals(), count, start)
      modifies vma, vma.pool
      ensures Ranged() && (ok <==> |old(vma.pool.used)| < VmaPool.MAX_NODES)
      ensures ok ==> vma.Intervals() == Place(old(vma.Intervals()), Interval(start, start + count * PAGE_SIZE, 0))
      ensures !ok ==> vma.Intervals() == old(vma.Intervals())
    {
      assert P.Open(0);
      ok := vma.Insert(start, start + count * PAGE_SIZE, 0);
    }

    ghost predicate Valid()
      reads paging.pmm, paging.pmm.bitmap, paging.pmm.bitmap.bytes, paging.tables, vma, vma.pool
    {
      Paged() && Ranged() && Covered(paging.tables.mem, paging.tables.base, vma.Intervals()) &&
      PageRanges(vma.Intervals()) &&
      Exclusive(paging.tables.mem, paging.tables.base, paging.tables.owner, paging.Free(), paging.pmm.totalFrames)
    }

    /** All or nothing: `count` pages at the lowest free range of the window, backed by distinct
        frames that were free, those next in line for the node, or no change to frames, kernel pages and ranges. */
    method AllocPages(count: nat, node: nat) returns (ok: bool, start: nat, ghost frames: seq<nat>)
      requires Valid()
      modifies paging.tables`mem, paging.pmm, paging.pmm.bitmap, paging.pmm.bitmap.bytes, vma, vma.pool
      ensures Valid() && SameWalks(old(paging.tables.mem), paging.tables.mem, paging.Roots())
      ensures ok <==> old(paging.pmm.initialized) && count > 0 && (exists a :: Room(old(vma.Intervals()), count, a)) &&
                      |old(paging.Free())| >= count && |old(vma.pool.used)| < VmaPool.MAX_NODES
      ensures ok ==> Room(old(vma.Intervals()), count, start) &&
                     forall a :: Room(old(vma.Intervals()), count, a) ==> start <= a
      ensures ok ==> vma.Intervals() == Place(old(vma.Intervals()), Interval(start, start + count * PAGE_SIZE, 0))
      ensures ok ==> |frames| == count && Taken(old(paging.Free()), frames, paging.Free()) &&
                     Backed(old(paging.tables.mem), paging.tables.mem, paging.tables.base, start / PAGE_SIZE, frames)
      ensures ok ==> InLine(old(paging.pmm.Now()), paging.pmm.Now(), node, frames)
      ensures !ok ==> vma.Intervals() == old(vma.Intervals()) && paging.Free() == old(paging.Free()) &&
                      SamePages(old(paging.tables.mem), paging.tables.mem, paging.tables.base)
    {
      ok, start, frames := false, 0, [];
      if count == 0 || !paging.pmm.initialized {
        return;
      }
      var found;
      found, start := FindRoom(count);
      if !found {
        return;
      }
      RoomIsVacant(paging.tables.mem, paging.tables.base, vma.Intervals(), count, start);
      ok, frames := BackAndRecord(start, count, node);
    }

    /** The part of the allocation after the range has been chosen. */
    method BackAndRecord(start: nat, count: nat, node: nat) returns (ok: bool, ghost frames: seq<nat>)
      requires Valid() && paging.pmm.initialized && count > 0 && Room(vma.Intervals(), count, start)
      requires VacantPages(paging.tables.mem, paging.tables.base, start / PAGE_SIZE, count)
      modifies paging.tables`mem, paging.pmm, paging.pmm.bitmap, paging.pmm.bitmap.bytes, vma, vma.pool
      ensures Valid() && SameWalks(old(paging.tables.mem), paging.tables.mem, paging.Roots())
      ensures ok <==> |old(paging.Free())| >= count && |old(vma.pool.used)| < VmaPool.MAX_NODES
      ensures ok ==> vma.Intervals() == Place(old(vma.Intervals()), Interval(start, start + count * PAGE_SIZE, 0))
      ensures ok ==> |frames| == count && Taken(old(paging.Free()), frames, paging.Free()) &&
                     Backed(old(paging.tables.mem), paging.tables.mem, paging.tables.base, start / PAGE_SIZE, frames)
      ensures ok ==> InLine(old(paging.pmm.Now()), paging.pmm.Now(), node, frames)
      ensures !ok ==> vma.Intervals() == old(vma.Intervals()) && paging.Free() == old(paging.Free()) &&
                      SamePages(old(paging.tables.mem), paging.tables.mem, paging.tables.base)
    {
      FreeFrames();
      var mapped;
      mapped, frames := BackRange(start, count, node);
      TakenSize(old(paging.Free()), frames, paging.Free());
      if mapped == count {
        ok := Record(start, count);
        if ok {
          CoveredPlace(old(paging.tables.mem), paging.tables.mem, paging.tables.base, old(vma.Intervals()), count,
                       start, frames);
          PageRangesPlace(old(vma.Intervals()), count, start);
          ExclusiveBacked(old(paging.tables.mem), paging.tables.mem, paging.tables.base, start / PAGE_SIZE, frames,
                          paging.tables.owner, old(paging.Free()), paging.Free(), paging.pmm.totalFrames);
          return;
        }
      }
      ok := false;
      ghost var m1 := paging.tables.mem;
      Rollback(start, mapped, frames, old(paging.tables.mem), old(paging.Free()));
      CoveredSame(old(paging.tables.mem), paging.tables.mem, paging.tables.base, vma.Intervals());
      ExclusiveSame(old(paging.tables.mem), paging.tables.mem, paging.tables.base, paging.tables.owner, paging.Free(),
                    paging.pmm.totalFrames);
    }

    /** Frees the pages of a range one by one. */
    method FreeRange(start: nat, count: nat)
      requires Paged() && DYNAMIC_BASE <= start && start + count * PAGE_SIZE <= DYNAMIC_LIMIT
      requires Releasable(start, count)
      modifies paging.tables`mem, paging.pmm, paging.pmm.bitmap, paging.pmm.bitmap.bytes
      ensures Paged() && SameWalks(old(paging.tables.mem), paging.tables.mem, paging.Roots())
      ensures Cleared(old(paging.tables.mem), paging.tables.mem, paging.tables.base, start / PAGE_SIZE, count)
      ensures paging.Free() == old(paging.Free()) +
                Behind(old(paging.tables.mem), paging.tables.base, start / PAGE_SIZE, count, paging.pmm.totalFrames)
    {
      ghost var m0, base := paging.tables.mem, paging.tables.base;
      ghost var first, total := start / PAGE_SIZE, paging.pmm.totalFrames;
      for i := 0 to count
        invariant Paged() && SameWalks(m0, paging.tables.mem, paging.Roots())
        invariant Cleared(m0, paging.tables.mem, base, first, i)
        invariant paging.Free() == old(paging.Free()) + Behind(m0, base, first, i, total)
      {
        ghost var m1 := paging.tables.mem;
        PageOfRange(start, i, count);
        BehindKept(m0, m1, base, first, i, total);
        BehindPart(m0, base, first, count, i, total);
        FreePage(start + i * PAGE_SIZE);
        ClearedMore(m0, m1, paging.tables.mem, base, first, i);
        BehindMore(m0, base, first, i, total);
      }
    }

    /** No managed frame behind the pages of the range is used for a table. */
    ghost predicate Releasable(start: nat, count: nat)
      requires Paged()
      reads paging.pmm, paging.pmm.bitmap, paging.pmm.bitmap.bytes, paging.tables
    {
      Loose(Behind(paging.tables.mem, paging.tables.base, start / PAGE_SIZE, count, paging.pmm.totalFrames),
            paging.tables.owner, paging.tables.base)
    }

    /** Removes a recorded range. */
    method Forget(start: nat, end: nat)
      requires Ranged()
      modifies vma, vma.pool
      ensures Ranged() && vma.Intervals() == Take(old(vma.Intervals()), start, end)
    {
      assert P.Open(0);
      var removed := vma.Remove(start, end);
    }

    /** Frees a range of the window: its record and every page of it, each mapped page's frame
        becoming free.  The null address, an empty range and one that passes the end of the
        address space are ignored.  No frame is freed that was free already, and the ranges that
        stay recorded keep their pages and frames. */
    method FreePages(start: nat, count: nat)
      requires Valid()
      requires start != 0 && count != 0 && start + count * PAGE_SIZE <= U32_MAX ==>
                 DYNAMIC_BASE <= start && start + count * PAGE_SIZE <= DYNAMIC_LIMIT
      modifies paging.tables`mem, paging.pmm, paging.pmm.bitmap, paging.pmm.bitmap.bytes, vma, vma.pool
      ensures Valid() && SameWalks(old(paging.tables.mem), paging.tables.mem, paging.Roots())
      ensures start == 0 || count == 0 || start + count * PAGE_SIZE > U32_MAX ==>
                paging.tables.mem == old(paging.tables.mem) && paging.Free() == old(paging.Free()) &&
                vma.Intervals() == old(vma.Intervals())
      ensures start != 0 && count != 0 && start + count * PAGE_SIZE <= U32_MAX ==>
                vma.Intervals() == Take(old(vma.Intervals()), start, start + count * PAGE_SIZE) &&
                Cleared(old(paging.tables.mem), paging.tables.mem, paging.tables.base, start / PAGE_SIZE, count) &&
                var gone := Behind(old(paging.tables.mem), paging.tables.base, start / PAGE_SIZE, count,
                                   paging.pmm.totalFrames);
                paging.Free() == old(paging.Free()) + gone && gone !! old(paging.Free())
    {
      if start == 0 || count == 0 {
        return;
      }
      var end := start + count * PAGE_SIZE;
      if end > U32_MAX {
        return;
      }
      WindowLoose(paging.tables.mem, paging.tables.base, paging.tables.owner, paging.Free(), paging.pmm.totalFrames,
                  start / PAGE_SIZE, count);
      Forget(start, end);
      FreeRange(start, count);
      CoveredTake(old(paging.tables.mem), paging.tables.mem, paging.tables.base, old(vma.Intervals()), start, count);
      TakeElements(old(vma.Intervals()), start, end);
      ExclusiveCleared(old(paging.tables.mem), paging.tables.mem, paging.tables.base, start / PAGE_SIZE, count,
                       paging.tables.owner, old(paging.Free()), paging.pmm.totalFrames);
    }

    /** An allocation followed by the matching free leaves frames, kernel pages and ranges as
        they were, whether or not the allocation succeeded. */
    method AllocThenFree(count: nat, node: nat)
      requires Valid()
      modifies paging.tables`mem, paging.pmm, paging.pmm.bitmap, paging.pmm.bitmap.bytes, vma, vma.pool
      ensures Valid() && paging.Free() == old(paging.Free()) && vma.Intervals() == old(vma.Intervals())
      ensures SamePages(old(paging.tables.mem), paging.tables.mem, paging.tables.base)
    {
      ghost var m0, free0, s := paging.tables.mem, paging.Free(), vma.Intervals();
      assert Sorted(s) by { assert P.Open(0); }
      FreeFrames();
      var ok, start;
      ghost var frames;
      ok, start, frames := AllocPages(count, node);
      if !ok {
        return;
      }
      ghost var m1, free1, s1 := paging.tables.mem, paging.Free(), vma.Intervals();
      FreePages(start, count);
      FreeUndoesAlloc(m0, m1, paging.tables.mem, paging.tables.base, s, s1, vma.Intervals(), start, count,
                      frames, free0, free1, paging.Free(), paging.pmm.totalFrames);
    }

    /** Mapping a user page leaves the kernel's pages, ranges and their frames alone. */
    method MapUser(s: nat, va: nat, physical: nat, flags: bv12) returns (halt: bool, ok: bool)
      requires Valid()
      modifies paging.tables`mem, paging.tables`owner, paging.pmm, paging.pmm.bitmap, paging.pmm.bitmap.bytes
      ensures Paged() && (!halt ==> Valid() && SamePages(old(paging.tables.mem), paging.tables.mem, paging.tables.base))
      ensures halt <==> P.TookPast(old(paging.Free()), paging.Free())
    {
      assert P.Open(0);
      ghost var before := paging.Now();
      ghost var dir, table;
      halt, ok, dir, table := paging.MapUserPage(s, va, physical, flags);
      if !halt { UserKept(before, s); }
    }

    /** So does unmapping one. */
    method UnmapUser(s: nat, va: nat)
      requires Valid()
      modifies paging.tables`mem, paging.tables`owner, paging.pmm, paging.pmm.bitmap, paging.pmm.bitmap.bytes
      ensures Valid() && SamePages(old(paging.tables.mem), paging.tables.mem, paging.tables.base)
    {
      assert P.Open(0);
      ghost var before := paging.Now();
      paging.UnmapUserPage(s, va);
      UserKept(before, s);
    }

    /** Destroying a space does too, if no page of it shows a frame of the kernel's pages. */
    method DestroySpace(s: nat)
      requires Valid()
      requires s in paging.Roots() && s != 0 ==>
                 T.Private(paging.tables.mem, paging.Roots()[s], paging.tables.owner, paging.Free(),
                           paging.pmm.totalFrames) &&
                 !P.MapsStatic(paging.tables.mem, paging.Roots()[s], paging.tables.base) &&
                 T.PageFrames(paging.tables.mem, paging.Roots()[s], paging.pmm.totalFrames) !!
                 Behind(paging.tables.mem, paging.tables.base, FIRST_PAGE, LAST_PAGE - FIRST_PAGE,
                        paging.pmm.totalFrames)
      modifies paging.tables`spaces, paging.tables`current, paging.tables`owner
      modifies paging.pmm, paging.pmm.bitmap, paging.pmm.bitmap.bytes
      ensures Valid() && paging.tables.mem == old(paging.tables.mem)
    {
      assert P.Open(0);
      ghost var before := paging.Now();
      ghost var calls := paging.DestroyProcessSpace(s);
      ExclusiveDestroyed(before, paging.Now(), paging.tables.base, paging.pmm.totalFrames);
    }

    lemma {:induction false} UserKept(before: Snap, s: nat)
      requires paging.Valid()
      requires Tables(before.mem) && paging.tables.base + STATIC_FRAMES <= |before.mem| &&
        KernelOk(before.mem, paging.tables.base)
      requires Exclusive(before.mem, paging.tables.base, before.owner, before.free, paging.pmm.totalFrames)
      requires KernelFramesKept(before.mem, paging.tables.mem, paging.tables.base)
      requires Conserves(before.owner, paging.tables.owner, before.free, paging.Free(), s)
      requires Ranged() && PageRanges(vma.Intervals()) && Covered(before.mem, paging.tables.base, vma.Intervals())
      ensures Valid() && SamePages(before.mem, paging.tables.mem, paging.tables.base)
    {
      ExclusiveUser(before, paging.Now(), paging.tables.base, s, paging.pmm.totalFrames);
      CoveredSame(before.mem, paging.tables.mem, paging.tables.base, vma.Intervals());
    }
  }

  /** Freeing frames that are not the window's. */
  lemma {:induction false} ExclusiveDestroyed(a: Snap, b: Snap, base: nat, total: nat)
    requires Tables(a.mem) && base + STATIC_FRAMES <= |a.mem| && a.mem == b.mem
    requires Exclusive(a.mem, base, a.owner, a.free, total) && b.owner.Keys <= a.owner.Keys
    requires forall f :: f in b.free ==>
      f in a.free || f in a.owner || f !in Behind(a.mem, base, FIRST_PAGE, LAST_PAGE - FIRST_PAGE, total)
    ensures Exclusive(b.mem, base, b.owner, b.free, total)
  {
    forall p: nat | Managed(a.mem, base, p, total)
      ensures Outside(PageOf(a.mem, base, p).frame, b.owner, b.free, base)
    {
      assert PageOf(a.mem, base, p).frame in Behind(a.mem, base, FIRST_PAGE, LAST_PAGE - FIRST_PAGE, total);
    }
  }

  /** The kernel's memory management after boot, from the boot loader's map: the frame manager,
      the bootstrap tables in the kernel image, and a page allocator with no pages.  The kernel
      image, which holds the static tables, is one of the reserved ranges. */
  method Boot(regions: seq<Pmm.Region>, ranges: seq<Pmm.Bytes>, base: nat, pool: VmaPool.NodePool, ghost image: nat)
    returns (a: PageAllocator)
    requires pool.Valid() && base + STATIC_FRAMES <= DIRECT_MAP_FRAMES
    requires image < |ranges| && ranges[image].base <= base * PAGE_SIZE
    requires (base + STATIC_FRAMES) * PAGE_SIZE <= ranges[image].base + ranges[image].length
    requires exists i :: 0 <= i < |regions| && (base + STATIC_FRAMES) * PAGE_SIZE <= Pmm.RegionTop(regions[i])
    ensures fresh(a) && fresh(a.paging) && fresh(a.vma) && a.Valid() && a.vma.pool == pool && a.vma.Intervals() == []
    ensures a.paging.pmm.initialized && a.paging.Roots() == map[0 := KernelRoot(base)]
    ensures a.paging.Free() == Pmm.BootFree(regions, [Pmm.Bytes(0, 0x10_0000)] + ranges, a.paging.pmm.totalFrames)
  {
    var p := Pmm.Pmm.Boot(regions, ranges);
    assert p != null;
    var all := [Pmm.Bytes(0, 0x10_0000)] + ranges;
    forall f | f in p.FreeSet() ensures !(base <= f < base + STATIC_FRAMES) {
      Pmm.BootFreeSound(regions, all, p.totalFrames, f);
      assert all[image + 1] == ranges[image];
    }
    BootWindowVacant(base);
    var paging := new P.Paging(p, base);
    var vma := new V.VmaTree(pool);
    a := new PageAllocator(paging, vma);
  }

  /** Boot maps no page of the window. */
  lemma {:induction false} BootWindowVacant(base: nat)
    requires base + STATIC_FRAMES <= DIRECT_MAP_FRAMES
    ensures Tables(BootMemory(base)) && |BootMemory(base)| == DIRECT_MAP_FRAMES
    ensures VacantPages(BootMemory(base), base, FIRST_PAGE, LAST_PAGE - FIRST_PAGE)
  {
    BootFlags();
    forall p | FIRST_PAGE <= p < LAST_PAGE ensures PageOf(BootMemory(base), base, p) == Miss {
      BootMemoryAt(base, KernelDir(base), p / ENTRIES % ENTRIES);
    }
  }

  lemma {:induction false} PageOfRange(start: nat, i: nat, count: nat)
    requires i < count
    ensures start + i * PAGE_SIZE + PAGE_SIZE <= start + count * PAGE_SIZE
    ensures (start + i * PAGE_SIZE) / PAGE_SIZE == start / PAGE_SIZE + i
  {
  }

  lemma {:induction false} PageAligned()
    ensures PowerOfTwo(PAGE_SIZE)
  {
    assert PowerOfTwo(1) && PowerOfTwo(2) && PowerOfTwo(4) && PowerOfTwo(8) && PowerOfTwo(16) && PowerOfTwo(32);
    assert PowerOfTwo(64) && PowerOfTwo(128) && PowerOfTwo(256) && PowerOfTwo(512) && PowerOfTwo(1024) &&
      PowerOfTwo(2048);
  }

  lemma {:induction false} WritableOnly()
    ensures WRITABLE & USER == 0
  {
  }

  /** Page `i` of a range that starts on a page boundary. */
  lemma {:induction false} PageInRange(start: nat, i: nat, count: nat)
    requires i < count && start % PAGE_SIZE == 0
    ensures start + i * PAGE_SIZE < start + count * PAGE_SIZE
    ensures (start + i * PAGE_SIZE) % PAGE_SIZE == 0 && (start + i * PAGE_SIZE) / PAGE_SIZE == start / PAGE_SIZE + i
  {
  }
}
