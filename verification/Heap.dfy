/** The kernel heap for small objects: nine caches of slabs on one-page ranges, with the records
    and lists updated in place.  Where the source asks the page allocator, the page it would get
    (or NONE) is a parameter, and a page that is to be freed is returned. */
module Heap {
  import opened TaskLists
  import opened L = SlabLists
  import opened HeapState
  import opened HeapUse

  const MAX_SLABS: nat := 256

  predicate IsShelf(n: Shelf) { n.Spare? || n.cache < CACHES }

  function Shelves(): set<Shelf> {
    {Spare} + (set c | 0 <= c < CACHES :: Partial(c)) + (set c | 0 <= c < CACHES :: Full(c)) +
    (set c | 0 <= c < CACHES :: Empty(c))
  }

  lemma {:induction false} ShelvesAre(n: Shelf)
    ensures n in Shelves() <==> IsShelf(n)
  {
  }

  /** Slab `i` of cache `c` has a free slot. */
  ghost predicate Ready(s: State, i: nat, c: nat) {
    Inv(s) && i < |s.slabs| && s.slabs[i].cache == c && Active(s.spots[i]) && s.frees[i] != []
  }

  /** The cache has no slab with a free slot, and no page or no record for a new one. */
  ghost predicate Exhausted(s: State, c: nat, page: int) {
    (forall x :: 0 <= x < |s.spots| ==> s.spots[x] != OnShelf(Partial(c))) &&
    (forall x :: 0 <= x < |s.spots| ==> s.spots[x] != OnShelf(Empty(c))) &&
    (page == NONE || forall x :: 0 <= x < |s.spots| ==> s.spots[x] != OnShelf(Spare))
  }

  lemma {:induction false} PartialReady(s: State, i: nat, c: nat)
    requires Inv(s) && i < |s.spots| && s.spots[i] == OnShelf(Partial(c))
    ensures Ready(s, i, c)
  {
    assert Unlocked(s, 0);
    assert RecordAt(s, i);
  }

  lemma {:induction false} EmptyReady(s: State, i: nat, c: nat)
    requires Inv(s) && i < |s.spots| && s.spots[i] == OnShelf(Empty(c))
    ensures Ready(s, i, c)
  {
    assert Unlocked(s, 0);
    assert RecordAt(s, i);
    SizeFacts(c);
    DivideBack(PAGE, SlotSize(c));
  }

  function Wanted(size: nat): nat { if size == 0 then 1 else size }

  /** `c` is the smallest cache for this size. */
  ghost predicate Fit(size: nat, c: nat) {
    c < CACHES && Wanted(size) <= ObjectSize(c) && forall d :: 0 <= d < c ==> ObjectSize(d) < Wanted(size)
  }

  lemma {:induction false} OneFit(size: nat, c: nat)
    requires Fit(size, c)
    ensures forall d :: 0 <= d < CACHES && Fit(size, d) ==> d == c
  {
  }

  lemma {:induction false} SlabChain(s: State, i: nat)
    requires i < |s.slabs| && Ready(s, i, s.slabs[i].cache)
    ensures s.slabs[i].free == s.frees[i][0] && s.frees[i][0] in s.headers
    ensures s.headers[s.frees[i][0]].next == if |s.frees[i]| == 1 then NONE else s.frees[i][1]
  {
    assert Unlocked(s, 0);
    assert RecordAt(s, i);
    assert HopFree(s.headers, s.frees[i], 0);
  }

  /** A live object's slab is in use, full exactly if it has no free slot. */
  lemma {:induction false} LiveSlab(s: State, a: nat)
    requires Inv(s) && IsLive(s, a)
    ensures SlabOf(s, a).cache < CACHES && 0 < SlabOf(s, a).inUse <= SlabOf(s, a).capacity
    ensures s.spots[s.headers[a].slab] ==
        OnShelf(if SlabOf(s, a).free == NONE then Full(SlabOf(s, a).cache) else Partial(SlabOf(s, a).cache))
  {
    assert Unlocked(s, 0);
    assert RecordAt(s, s.headers[a].slab);
    GiveSlab(s, a, true);
  }

  lemma {:induction false} GrabPages(s: State, i: nat)
    requires i < |s.slabs| == |s.spots| && Ready(s, i, s.slabs[i].cache)
    ensures s.frees[i][0] in s.headers && Pages(Grab(s, i)) == Pages(s)
  {
    SlabChain(s, i);
    PagesKept(s, i, Grab(s, i).slabs[i], Grab(s, i).spots[i]);
  }

  lemma {:induction false} GivePages(s: State, a: nat, keep: bool)
    requires Inv(s) && IsLive(s, a)
    ensures SlabOf(s, a).inUse > 0
    ensures Pages(Give(s, a, keep)) == Pages(s) - if SlabOf(s, a).inUse == 1 && !keep then {SlabOf(s, a).page} else {}
  {
    LiveSlab(s, a);
    var i := s.headers[a].slab;
    var r := Give(s, a, keep);
    if SlabOf(s, a).inUse == 1 && !keep {
      PagesDropped(s, i, r.slabs[i], r.spots[i]);
    } else {
      PagesKept(s, i, r.slabs[i], r.spots[i]);
    }
  }

  /** A live object lies in the page of a slab in use. */
  lemma {:induction false} PageOfLive(s: State, a: nat)
    requires Inv(s) && IsLive(s, a)
    ensures SlabOf(s, a).page in Pages(s) && SlabOf(s, a).page <= a
    ensures a + SlotSize(SlabOf(s, a).cache) <= SlabOf(s, a).page + PAGE
  {
    assert Unlocked(s, 0);
    var i := s.headers[a].slab;
    assert RecordAt(s, i) && Active(s.spots[i]);
    SlotRange(s.slabs[i], a);
  }

  lemma {:induction false} SlotHolds(s: State, a: nat)
    requires Inv(s) && IsLive(s, a)
    ensures SlotSize(SlabOf(s, a).cache) >= HEADER + 8
  {
    LiveSlab(s, a);
    SizeFacts(SlabOf(s, a).cache);
  }

  /** Some record is on the list. */
  ghost predicate Supplied(s: State, n: Shelf) {
    exists x :: 0 <= x < |s.spots| && s.spots[x] == OnShelf(n)
  }

  predicate IsShelves(shelves: map<Shelf, seq<nat>>, c: nat) {
    Partial(c) in shelves && Empty(c) in shelves && Spare in shelves
  }

  function Front(s: seq<nat>): int { if s == [] then NONE else s[0] }

  /** The record to serve an object from: the cache's first partial slab if it has any, else its first
      empty one, else a spare record, if there is a page for it. */
  function Choice(shelves: map<Shelf, seq<nat>>, c: nat, page: int): int
    requires IsShelves(shelves, c)
  {
    if shelves[Partial(c)] != [] then shelves[Partial(c)][0]
    else if shelves[Empty(c)] != [] then shelves[Empty(c)][0]
    else if page == NONE then NONE
    else Front(shelves[Spare])
  }

  class Heap {
    var slabs: seq<Slab>
    var headers: map<nat, Header>
    const lists: L.SlabLists
    ghost var frees: seq<seq<nat>>

    ghost function Now(): State
      reads this, lists
    {
      State(slabs, frees, headers, lists.spots)
    }

    ghost predicate Shaped()
      reads this, lists
    {
      lists.Valid() && |lists.spots| == |slabs| == |frees| == MAX_SLABS && forall n :: n in lists.heads <==> IsShelf(n)
    }

    ghost predicate Valid()
      reads this, lists
    {
      Shaped() && Inv(Now())
    }

    /** `heap_init`: all records are spare. */
    constructor ()
      ensures Valid() && Live(Now()) == {} && Pages(Now()) == {}
    {
      slabs := seq(MAX_SLABS, _ => Slab(0, 0, NONE, 0, 0));
      frees := seq(MAX_SLABS, _ => []);
      headers := map[];
      lists := new L.SlabLists(MAX_SLABS, Shelves());
      new;
      forall n ensures n in lists.heads <==> IsShelf(n) { ShelvesAre(n); }
      forall i | 0 <= i < MAX_SLABS ensures RecordAt(Now(), i) { }
      forall i, j | 0 <= i < MAX_SLABS && 0 <= j < MAX_SLABS ensures PairAt(Now(), i, j) { }
    }

    /** `slab_cache_for_size`: the first cache whose objects are big enough. */
    method CacheForSize(size: nat) returns (c: int)
      ensures c == NONE <==> size > 2048
      ensures c != NONE ==> 0 <= c < CACHES && size <= ObjectSize(c) && forall d :: 0 <= d < c ==> ObjectSize(d) < size
    {
      c := 0;
      while c < CACHES
        invariant 0 <= c <= CACHES && forall d :: 0 <= d < c ==> ObjectSize(d) < size
      {
        if size <= ObjectSize(c) {
          return;
        }
        c := c + 1;
      }
      assert ObjectSize(8) < size;
      c := NONE;
    }

    /** Cuts the page of a new slab into free slots. */
    method Carve(i: nat, c: nat, page: nat)
      requires i < |slabs| == |frees|
      modifies this
      ensures slabs == old(slabs)[i := Slab(c, page, CarvedHead(page, c, Capacity(c)), 0, Capacity(c))]
      ensures frees == old(frees)[i := CarvedFree(page, c, Capacity(c))]
      ensures headers == Carved(old(headers), i, page, c, Capacity(c))
      ensures slabs[i].capacity * SlotSize(c) <= PAGE < (slabs[i].capacity + 1) * SlotSize(c)
      ensures |frees[i]| == slabs[i].capacity && Distinct(frees[i]) && FreeChain(headers, slabs[i].free, frees[i])
      ensures forall k :: 0 <= k < slabs[i].capacity ==>
                SlotAt(page, c, k) in frees[i] && SlotAt(page, c, k) in headers && headers[SlotAt(page, c, k)].slab == i
    {
      var head: int, capacity := NONE, PAGE / SlotSize(c);
      for k := 0 to capacity
        invariant head == CarvedHead(page, c, k) && headers == Carved(old(headers), i, page, c, k) &&
          slabs == old(slabs) && frees == old(frees)
      {
        var slot := page + k * SlotSize(c);
        headers := headers[slot := Header(i, head)];
        head := slot;
      }
      slabs := slabs[i := Slab(c, page, head, 0, capacity)];
      frees := frees[i := CarvedFree(page, c, capacity)];
      SlotsFillPage(c);
      CarvedPage(old(headers), i, page, c);
    }

    /** Head of a list, and who is on it. */
    method First(n: Shelf) returns (i: int)
      requires Shaped() && IsShelf(n)
      ensures i == NONE <==> forall x :: 0 <= x < MAX_SLABS ==> lists.spots[x] != OnShelf(n)
      ensures i != NONE ==> 0 <= i < MAX_SLABS && lists.spots[i] == OnShelf(n)
      ensures n in lists.shelves && i == Front(lists.shelves[n])
    {
      i := lists.heads[n];
      lists.SpotIs(n, if i >= 0 then i else 0);
      forall x | 0 <= x < MAX_SLABS ensures lists.spots[x] == OnShelf(n) ==> i != NONE {
        lists.SpotIs(n, x);
      }
    }

    lemma {:induction false} HasShelves(c: nat)
      requires Shaped() && c < CACHES
      ensures IsShelves(lists.shelves, c)
    {
      assert Partial(c) in lists.heads && Empty(c) in lists.heads && Spare in lists.heads;
    }

    /** Whether a slot can be had without a new slab. */
    method HasStock(c: nat) returns (stocked: bool)
      requires Shaped() && c < CACHES
      ensures stocked <==> Stocked(Now(), c)
    {
      var partial := First(Partial(c));
      var empty := First(Empty(c));
      return partial != NONE || empty != NONE;
    }

    /** `slab_metadata_alloc`. */
    method TakeRecord() returns (i: int)
      requires Shaped()
      modifies lists
      ensures Shaped() && (i == NONE <==> forall x :: 0 <= x < MAX_SLABS ==> old(lists.spots)[x] != OnShelf(Spare))
      ensures i == NONE ==> lists.spots == old(lists.spots)
      ensures i != NONE ==>
          0 <= i < MAX_SLABS && old(lists.spots)[i] == OnShelf(Spare) && lists.spots == old(lists.spots)[i := Nowhere]
      ensures Spare in old(lists.shelves) && i == Front(old(lists.shelves)[Spare])
    {
      i := First(Spare);
      if i != NONE {
        lists.Remove(Spare, i);
      }
    }

    /** `slab_create`: a record and a page become a slab; without either of them, NONE. */
    method CreateSlab(c: nat, page: int) returns (i: int)
      requires Valid() && c < CACHES && (page == NONE || (0 <= page && NewPage(Now(), page))) && NoEmpty(Now(), c)
      modifies this, lists
      ensures Shaped() &&
        (i == NONE <==> page == NONE || forall x :: 0 <= x < MAX_SLABS ==> old(lists.spots)[x] != OnShelf(Spare))
      ensures i == NONE ==> Now() == old(Now())
      ensures i != NONE ==> 0 <= i < MAX_SLABS && old(lists.spots)[i] == OnShelf(Spare) && 0 <= page &&
                            Now() == Open(old(Now()), i, c, page).(spots := old(lists.spots)[i := Nowhere])
      ensures Spare in old(lists.shelves) && i == if page == NONE then NONE else Front(old(lists.shelves)[Spare])
    {
      assert Spare in lists.heads;
      if page == NONE {
        return NONE;
      }
      i := TakeRecord();
      if i == NONE {
        return;
      }
      Carve(i, c, page);
    }

    /** The slab to take an object from, at the front of the cache's partial list: its first
        partial slab, else its empty one, else a new one.  `b` is the state with the slab as it
        was found or created. */
    method PickSlab(c: nat, page: int) returns (i: int, ghost b: State)
      requires Valid() && c < CACHES && (page == NONE || (0 <= page && NewPage(Now(), page)))
      modifies this, lists
      ensures Shaped() && (i == NONE ==> Now() == old(Now()))
      ensures i == NONE <==> Exhausted(old(Now()), c, page)
      ensures i != NONE ==>
          0 <= i && Ready(b, i, c) && Live(b) == Live(old(Now())) &&
          Now() == b.(spots := b.spots[i := OnShelf(Partial(c))])
      ensures i != NONE ==> Pages(b) == Pages(old(Now())) + if Stocked(old(Now()), c) then {} else {page}
      ensures IsShelves(old(lists.shelves), c) && i == Choice(old(lists.shelves), c, page)
      ensures i != NONE ==>
          i < MAX_SLABS &&
          old(lists.spots)[i] == OnShelf(if Supplied(old(Now()), Partial(c)) then Partial(c)
                                         else if Supplied(old(Now()), Empty(c)) then Empty(c) else Spare)
    {
      assert IsShelves(lists.shelves, c) by { HasShelves(c); }
      b := Now();
      i := First(Partial(c));
      if i != NONE {
        PartialReady(b, i, c);
        return;
      }
      i := First(Empty(c));
      if i != NONE {
        EmptyReady(b, i, c);
        lists.Remove(Empty(c), i);
        lists.Push(Partial(c), i);
      } else {
        i, b := NewSlab(c, page);
      }
    }

    method NewSlab(c: nat, page: int) returns (i: int, ghost b: State)
      requires Valid() && c < CACHES && (page == NONE || (0 <= page && NewPage(Now(), page))) && NoEmpty(Now(), c)
      modifies this, lists
      ensures Shaped() && (i == NONE ==> Now() == old(Now()))
      ensures i == NONE <==> page == NONE || forall x :: 0 <= x < MAX_SLABS ==> old(lists.spots)[x] != OnShelf(Spare)
      ensures i != NONE ==>
          0 <= i && Ready(b, i, c) && Live(b) == Live(old(Now())) &&
          Now() == b.(spots := b.spots[i := OnShelf(Partial(c))])
      ensures i != NONE ==> Pages(b) == Pages(old(Now())) + {page} && i < MAX_SLABS
      ensures i != NONE ==> old(lists.spots)[i] == OnShelf(Spare)
      ensures Spare in old(lists.shelves) && i == if page == NONE then NONE else Front(old(lists.shelves)[Spare])
    {
      b := Now();
      i := CreateSlab(c, page);
      if i == NONE {
        return;
      }
      OpenInv(b, i, c, page);
      OpenLive(b, i, c, page);
      PagesAdded(b, i, Open(b, i, c, page).slabs[i], OnShelf(Empty(c)));
      b := Open(b, i, c, page);
      lists.Push(Partial(c), i);
    }

    /** Takes the first free slot; a slab without a further one goes to the full list. */
    method TakeObject(c: nat, i: nat, ghost b: State) returns (a: nat)
      requires Shaped() && c < CACHES && Ready(b, i, c) && Now() == b.(spots := b.spots[i := OnShelf(Partial(c))])
      modifies this, lists
      ensures Valid() && b.frees[i][0] in b.headers && a == b.frees[i][0] && Now() == Grab(b, i)
    {
      GrabInv(b, i);
      SlabChain(b, i);
      a := slabs[i].free;
      slabs := slabs[i := slabs[i].(free := headers[a].next, inUse := slabs[i].inUse + 1)];
      headers := headers[a := headers[a].(next := NONE)];
      frees := frees[i := frees[i][1..]];
      if slabs[i].free == NONE {
        lists.Remove(Partial(c), i);
        lists.Push(Full(c), i);
      }
      assert Now() == Grab(b, i);
    }

    /** `slab_alloc_from_cache`. */
    method AllocFromCache(c: nat, page: int) returns (ptr: int)
      requires Valid() && c < CACHES && (page == NONE || (0 <= page && NewPage(Now(), page)))
      modifies this, lists
      ensures Valid() && (ptr == NONE <==> Exhausted(old(Now()), c, page))
      ensures ptr == NONE ==> Now() == old(Now())
      ensures ptr != NONE ==>
          HEADER <= ptr && ptr - HEADER !in Live(old(Now())) && Live(Now()) == Live(old(Now())) + {ptr - HEADER}
      ensures ptr != NONE ==> IsLive(Now(), ptr - HEADER) && SlabOf(Now(), ptr - HEADER).cache == c
      ensures ptr != NONE ==> Pages(Now()) == Pages(old(Now())) + if Stocked(old(Now()), c) then {} else {page}
    {
      ghost var b;
      var i;
      i, b := PickSlab(c, page);
      if i == NONE {
        return NONE;
      }
      GrabLive(b, i);
      GrabPages(b, i);
      var a := TakeObject(c, i, b);
      assert a in Live(Now());
      return a + HEADER;
    }

    /** `slab_free_pointer` of a live object: the slot heads its slab's free list again, and the
        slab moves to the list that its use now demands.  A second empty slab of a cache is given
        up: its record is spare again and its page is returned for freeing. */
    method FreeObject(a: nat) returns (page: int)
      requires Valid() && IsLive(Now(), a)
      modifies this, lists
      ensures Valid() && SlabOf(old(Now()), a).inUse > 0
      ensures Now() == Give(old(Now()), a, NoEmpty(old(Now()), SlabOf(old(Now()), a).cache))
      ensures Live(Now()) == Live(old(Now())) - {a}
      ensures Pages(Now()) == Pages(old(Now())) - if page == NONE then {} else {SlabOf(old(Now()), a).page}
      ensures page == if SlabOf(old(Now()), a).inUse == 1 && !NoEmpty(old(Now()), SlabOf(old(Now()), a).cache)
                      then SlabOf(old(Now()), a).page else NONE
    {
      ghost var s := Now();
      ghost var keep := NoEmpty(s, SlabOf(s, a).cache);
      GiveInv(s, a, keep);
      GiveLive(s, a, keep);
      GivePages(s, a, keep);
      LiveSlab(s, a);
      var i := headers[a].slab;
      var x := slabs[i];
      headers := headers[a := headers[a].(next := x.free)];
      slabs := slabs[i := x.(free := a, inUse := x.inUse - 1)];
      frees := frees[i := [a] + frees[i]];
      page := Reshelve(i, x.free == NONE);
      assert Now() == Give(s, a, keep);
    }

    /** Moves a slab that has just got a slot back from the list it was on. */
    method Reshelve(i: nat, wasFull: bool) returns (page: int)
      requires Shaped() && i < MAX_SLABS && slabs[i].cache < CACHES
      requires lists.spots[i] == OnShelf(if wasFull then Full(slabs[i].cache) else Partial(slabs[i].cache))
      modifies lists
      ensures Shaped()
      ensures lists.spots == old(lists.spots)[i := OnShelf(if slabs[i].inUse > 0 then Partial(slabs[i].cache)
                                                           else if NoEmpty(old(Now()),
                                                               slabs[i].cache) then Empty(slabs[i].cache) else Spare)]
      ensures page == if slabs[i].inUse == 0 && !NoEmpty(old(Now()), slabs[i].cache) then slabs[i].page else NONE
    {
      page := NONE;
      var c := slabs[i].cache;
      if slabs[i].inUse == 0 {
        lists.Remove(if wasFull then Full(c) else Partial(c), i);
        var e := First(Empty(c));
        if e == NONE {
          forall j | 0 <= j < MAX_SLABS ensures old(lists.spots)[j] != OnShelf(Empty(c)) {
            assert lists.spots[j] != OnShelf(Empty(c));
          }
          lists.Push(Empty(c), i);
        } else {
          assert old(lists.spots)[e] == OnShelf(Empty(c));
          page := slabs[i].page;
          lists.Push(Spare, i);
        }
      } else if wasFull {
        lists.Remove(Full(c), i);
        lists.Push(Partial(c), i);
      }
    }
  }
}
