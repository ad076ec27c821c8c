/** Slabs as values: pages cut into equal slots, each slab with the list of its free slots. */
module HeapState {
  import opened TaskLists
  import opened SlabLists

  const PAGE: nat := 4096
  const CACHES: nat := 9
  const HEADER: nat := 16

  /** `slab_t` without its link, and the header in front of every object. */
  datatype Slab = Slab(cache: nat, page: nat, free: int, inUse: nat, capacity: nat)
  datatype Header = Header(slab: nat, next: int)

  /** Records, their free slots in list order, the headers in memory, and where each record is. */
  datatype State = State(slabs: seq<Slab>, frees: seq<seq<nat>>, headers: map<nat, Header>, spots: seq<Spot>)

  function ObjectSize(c: nat): nat {
    if c == 0 then 8 else if c == 1 then 16 else if c == 2 then 32 else if c == 3 then 64 else if c == 4 then 128
    else if c == 5 then 256 else if c == 6 then 512 else if c == 7 then 1024 else 2048
  }

  function SlotSize(c: nat): nat { (HEADER + ObjectSize(c) + 7) / 8 * 8 }

  function Capacity(c: nat): nat { PAGE / SlotSize(c) }

  function SlotAt(page: nat, c: nat, k: nat): nat { page + k * SlotSize(c) }

  lemma {:induction false} SizeFacts(c: nat)
    ensures HEADER + ObjectSize(c) <= SlotSize(c) <= PAGE && SlotSize(c) % 8 == 0
  {
  }

  lemma {:induction false} DivideBack(p: nat, z: nat)
    requires z > 0
    ensures p / z * z <= p && (z <= p ==> p / z >= 1)
  {
  }

  lemma {:induction false} SlotFits(c: nat, k: nat)
    requires k < Capacity(c)
    ensures k * SlotSize(c) + SlotSize(c) <= PAGE && SlotSize(c) >= HEADER + ObjectSize(c)
  {
    SizeFacts(c);
    FitsArithmetic(SlotSize(c), Capacity(c), k);
  }

  lemma {:induction false} FitsArithmetic(z: nat, n: nat, k: nat)
    requires z > 0 && n == PAGE / z && k < n
    ensures k * z + z <= PAGE
  {
    DivideBack(PAGE, z);
    Scale(k + 1, n, z);
    assert (k + 1) * z == k * z + z;
  }

  lemma {:induction false} Scale(a: nat, b: nat, z: nat)
    requires a <= b
    ensures a * z <= b * z
  {
    assert b * z - a * z == (b - a) * z;
  }

  /** `a` is the address of a slot of the slab. */
  ghost predicate IsSlot(x: Slab, a: nat) {
    exists k :: 0 <= k < Capacity(x.cache) && a == SlotAt(x.page, x.cache, k)
  }

  ghost predicate HopFree(headers: map<nat, Header>, s: seq<nat>, i: nat)
    requires i < |s|
  {
    s[i] in headers && headers[s[i]].next == if i + 1 == |s| then NONE else s[i + 1]
  }

  ghost predicate FreeChain(headers: map<nat, Header>, head: int, s: seq<nat>) {
    head == (if s == [] then NONE else s[0]) && forall i :: 0 <= i < |s| ==> HopFree(headers, s, i)
  }

  /** Slab `i`: its free list spells distinct slots of its page, the others are in use, and every
      slot's header names it. */
  ghost predicate SlabOk(x: Slab, i: nat, free: seq<nat>, headers: map<nat, Header>) {
    x.cache < CACHES && x.capacity == Capacity(x.cache) && x.page % PAGE == 0 &&
    FreeChain(headers, x.free, free) && Distinct(free) && (forall a :: a in free ==> IsSlot(x, a)) &&
    x.inUse + |free| == x.capacity &&
    forall a :: IsSlot(x, a) ==> a in headers && headers[a].slab == i
  }

  /** The list that a slab's use demands. */
  function ShelfFor(x: Slab): Shelf {
    if x.inUse == 0 then Empty(x.cache) else if x.inUse == x.capacity then Full(x.cache) else Partial(x.cache)
  }

  predicate Active(p: Spot) { p.OnShelf? && p.shelf != Spare }

  ghost predicate RecordAt(s: State, i: nat) {
    i < |s.slabs| && |s.frees| == |s.spots| == |s.slabs| && s.spots[i].OnShelf? &&
    (Active(s.spots[i]) ==> SlabOk(s.slabs[i], i, s.frees[i], s.headers) && s.spots[i] == OnShelf(ShelfFor(s.slabs[i])))
  }

  /** Slabs in use have pages of their own, and a cache has at most one empty slab. */
  ghost predicate PairAt(s: State, i: nat, j: nat) {
    i < |s.slabs| == |s.spots| && j < |s.slabs| &&
    (i != j && Active(s.spots[i]) && Active(s.spots[j]) ==> s.slabs[i].page != s.slabs[j].page) &&
    (s.spots[i] == s.spots[j] && s.spots[i].OnShelf? && s.spots[i].shelf.Empty? ==> i == j)
  }

  ghost predicate Core(s: State) {
    |s.frees| == |s.spots| == |s.slabs| && (forall i :: 0 <= i < |s.slabs| ==> RecordAt(s, i)) &&
    forall i, j :: 0 <= i < |s.slabs| && 0 <= j < |s.slabs| ==> PairAt(s, i, j)
  }

  ghost predicate Unlocked(s: State, k: int) { true }

  /** The invariant, under a guard: `assert Unlocked(s, 0)` opens it. */
  ghost predicate Inv(s: State) {
    |s.frees| == |s.spots| == |s.slabs| && forall k :: Unlocked(s, k) ==> Core(s)
  }

  /** The slot at `a` holds a live object. */
  ghost predicate IsLive(s: State, a: nat) {
    a in s.headers && var i := s.headers[a].slab;
    i < |s.slabs| && |s.frees| == |s.spots| == |s.slabs| && Active(s.spots[i]) && IsSlot(s.slabs[i], a) &&
    a !in s.frees[i]
  }

  ghost function Live(s: State): set<nat> {
    set a | a in s.headers && IsLive(s, a)
  }

  /** The cache has a slab with a free slot. */
  ghost predicate Stocked(s: State, c: nat) {
    exists x :: 0 <= x < |s.spots| && (s.spots[x] == OnShelf(Partial(c)) || s.spots[x] == OnShelf(Empty(c)))
  }

  // ------------------------------------------------------------------------------------
  // Slots do not overlap
  // ------------------------------------------------------------------------------------

  lemma {:induction false} SlotRange(x: Slab, a: nat)
    requires IsSlot(x, a)
    ensures x.page <= a && a + SlotSize(x.cache) <= x.page + PAGE && SlotSize(x.cache) >= HEADER + ObjectSize(x.cache)
  {
    var k :| 0 <= k < Capacity(x.cache) && a == SlotAt(x.page, x.cache, k);
    SlotFits(x.cache, k);
  }

  lemma {:induction false} PagesApart(p: nat, q: nat)
    requires p % PAGE == 0 && q % PAGE == 0 && p != q
    ensures p + PAGE <= q || q + PAGE <= p
  {
  }

  lemma {:induction false} SlotsApart(x: Slab, a: nat, b: nat)
    requires IsSlot(x, a) && IsSlot(x, b) && a != b
    ensures a + SlotSize(x.cache) <= b || b + SlotSize(x.cache) <= a
  {
    var z := SlotSize(x.cache);
    var k :| 0 <= k < Capacity(x.cache) && a == SlotAt(x.page, x.cache, k);
    var l :| 0 <= l < Capacity(x.cache) && b == SlotAt(x.page, x.cache, l);
    if k < l { Scale(k + 1, l, z); assert (k + 1) * z == k * z + z; }
    else if l < k { Scale(l + 1, k, z); assert (l + 1) * z == l * z + z; }
  }

  function SlabOf(s: State, a: nat): Slab
    requires a in s.headers && s.headers[a].slab < |s.slabs|
  {
    s.slabs[s.headers[a].slab]
  }

  /** Live objects lie in slots of their slabs' pages that do not overlap; each has room for an
      object of its cache behind its header. */
  lemma {:induction false} LiveDisjoint(s: State, a: nat, b: nat)
    requires Inv(s) && IsLive(s, a) && IsLive(s, b) && a != b
    ensures a + SlotSize(SlabOf(s, a).cache) <= b || b + SlotSize(SlabOf(s, b).cache) <= a
    ensures SlotSize(SlabOf(s, a).cache) >= HEADER + ObjectSize(SlabOf(s, a).cache)
  {
    assert Unlocked(s, 0);
    var i, j := s.headers[a].slab, s.headers[b].slab;
    assert RecordAt(s, i) && RecordAt(s, j) && PairAt(s, i, j);
    SlotRange(s.slabs[i], a);
    SlotRange(s.slabs[j], b);
    if i == j { SlotsApart(s.slabs[i], a, b); } else { PagesApart(s.slabs[i].page, s.slabs[j].page); }
  }

  /** What the invariant says of a slab in use: free and used slots add up to its capacity, it is
      on the list that its use demands, and it is its cache's only empty slab if it is empty. */
  lemma {:induction false} SlabFacts(s: State, i: nat, j: nat)
    requires Inv(s) && i < |s.slabs| && j < |s.slabs| && Active(s.spots[i])
    ensures |s.frees[i]| + s.slabs[i].inUse == s.slabs[i].capacity == Capacity(s.slabs[i].cache)
    ensures s.spots[i] == OnShelf(ShelfFor(s.slabs[i]))
    ensures i != j && s.slabs[i].inUse == 0 ==> s.spots[j] != s.spots[i]
  {
    assert Unlocked(s, 0);
    assert RecordAt(s, i) && PairAt(s, i, j);
  }

  /** Slots of slabs with different pages are different. */
  lemma {:induction false} OtherPage(x: Slab, y: Slab, a: nat)
    requires x.page % PAGE == 0 && y.page % PAGE == 0 && x.page != y.page && IsSlot(x, a)
    ensures !IsSlot(y, a)
  {
    PagesApart(x.page, y.page);
    SlotRange(x, a);
    if IsSlot(y, a) { SlotRange(y, a); }
  }

  // ------------------------------------------------------------------------------------
  // Taking a slot and giving it back
  // ------------------------------------------------------------------------------------

  /** The first free slot of slab `i` becomes an object. */
  function Grab(s: State, i: nat): State
    requires i < |s.slabs| == |s.frees| == |s.spots| && s.frees[i] != [] && s.frees[i][0] in s.headers
  {
    var a := s.frees[i][0];
    var x := s.slabs[i].(free := s.headers[a].next, inUse := s.slabs[i].inUse + 1);
    s.(slabs := s.slabs[i := x], frees := s.frees[i := s.frees[i][1..]],
       headers := s.headers[a := s.headers[a].(next := NONE)],
       spots := s.spots[i := OnShelf(if |s.frees[i]| == 1 then Full(x.cache) else Partial(x.cache))])
  }

  /** An object goes back to the front of its slab's free list; an emptied slab stays as the
      cache's empty one unless there is one already. */
  function Give(s: State, a: nat, keep: bool): State
    requires a in s.headers && s.headers[a].slab < |s.slabs| == |s.frees| == |s.spots| &&
      s.slabs[s.headers[a].slab].inUse > 0
  {
    var i := s.headers[a].slab;
    var x := s.slabs[i].(free := a, inUse := s.slabs[i].inUse - 1);
    s.(slabs := s.slabs[i := x], frees := s.frees[i := [a] + s.frees[i]],
       headers := s.headers[a := s.headers[a].(next := s.slabs[i].free)],
       spots := s.spots[i := OnShelf(if x.inUse > 0 then Partial(x.cache) else if keep then Empty(x.cache) else Spare)])
  }

  /** Headers changed only in their links, and only those of slots of one slab. */
  ghost predicate Relinked(h: map<nat, Header>, h': map<nat, Header>, x: Slab) {
    h'.Keys == h.Keys && (forall a :: a in h ==> h'[a].slab == h[a].slab) &&
    forall a :: a in h && !IsSlot(x, a) ==> h'[a] == h[a]
  }

  lemma {:induction false} SlabKept(s: State, s': State, i: nat, j: nat)
    requires i != j && RecordAt(s, j) && PairAt(s, i, j) && i < |s.slabs| && s.slabs[i].page % PAGE == 0 &&
      Active(s.spots[i])
    requires |s'.frees| == |s'.spots| == |s'.slabs| == |s.slabs| && s'.slabs[j] == s.slabs[j] &&
      s'.frees[j] == s.frees[j] && s'.spots[j] == s.spots[j]
    requires Relinked(s.headers, s'.headers, s.slabs[i])
    ensures RecordAt(s', j)
  {
    if Active(s.spots[j]) {
      var x, f := s.slabs[j], s.frees[j];
      forall k | 0 <= k < |f| ensures HopFree(s'.headers, f, k) {
        assert HopFree(s.headers, f, k) && f[k] in f;
        OtherPage(x, s.slabs[i], f[k]);
      }
      forall a | IsSlot(x, a) ensures a in s'.headers && s'.headers[a].slab == j {
        assert a in s.headers;
      }
    }
  }

  lemma {:induction false} GrabSlab(s: State, i: nat)
    requires RecordAt(s, i) && Active(s.spots[i]) && s.frees[i] != []
    ensures s.frees[i][0] in s.headers && IsSlot(s.slabs[i], s.frees[i][0]) && s.headers[s.frees[i][0]].slab == i
    ensures RecordAt(Grab(s, i), i) && Active(Grab(s, i).spots[i]) &&
      Relinked(s.headers, Grab(s, i).headers, s.slabs[i])
  {
    var f, a := s.frees[i], s.frees[i][0];
    assert a in f && HopFree(s.headers, f, 0);
    var s' := Grab(s, i);
    forall k | 0 <= k < |f[1..]| ensures HopFree(s'.headers, f[1..], k) {
      assert HopFree(s.headers, f, k + 1);
    }
    assert forall b :: b in f[1..] ==> b in f;
    SameSlots(s.slabs[i], s'.slabs[i]);
  }

  /** The slots depend on cache and page only. */
  lemma {:induction false} SameSlots(x: Slab, y: Slab)
    requires x.cache == y.cache && x.page == y.page
    ensures forall a :: IsSlot(x, a) <==> IsSlot(y, a)
  {
  }

  lemma {:induction false} GrabPairs(s: State, i: nat, j: nat, k: nat)
    requires Core(s) && i < |s.slabs| && Active(s.spots[i]) && s.frees[i] != [] && s.frees[i][0] in s.headers &&
      j < |s.slabs| && k < |s.slabs|
    ensures PairAt(Grab(s, i), j, k)
  {
    assert PairAt(s, j, k);
  }

  lemma {:induction false} GrabInv(s: State, i: nat)
    requires Inv(s) && i < |s.slabs| && Active(s.spots[i]) && s.frees[i] != []
    ensures s.frees[i][0] in s.headers && Inv(Grab(s, i))
  {
    assert Unlocked(s, 0);
    assert RecordAt(s, i);
    GrabSlab(s, i);
    var s' := Grab(s, i);
    forall j | 0 <= j < |s.slabs| ensures RecordAt(s', j) {
      if j != i {
        assert RecordAt(s, j) && PairAt(s, i, j);
        SlabKept(s, s', i, j);
      }
    }
    forall j, k | 0 <= j < |s.slabs| && 0 <= k < |s.slabs| ensures PairAt(s', j, k) {
      GrabPairs(s, i, j, k);
    }
  }

  /** The object that is handed out was not live, and now the live ones are the old ones and it. */
  lemma {:induction false} GrabLive(s: State, i: nat)
    requires Inv(s) && i < |s.slabs| && Active(s.spots[i]) && s.frees[i] != []
    ensures s.frees[i][0] in s.headers && !IsLive(s, s.frees[i][0])
    ensures Live(Grab(s, i)) == Live(s) + {s.frees[i][0]}
    ensures s.headers[s.frees[i][0]].slab == i
  {
    assert Unlocked(s, 0);
    assert RecordAt(s, i);
    GrabSlab(s, i);
    var s', a := Grab(s, i), s.frees[i][0];
    assert a in s.frees[i];
    SameSlots(s.slabs[i], s'.slabs[i]);
    forall b | b in s.headers ensures IsLive(s', b) <==> IsLive(s, b) || b == a {
      assert s.frees[i] == [a] + s.frees[i][1..];
      if b == a { assert a !in s.frees[i][1..]; }
    }
  }

  lemma {:induction false} GiveSlab(s: State, a: nat, keep: bool)
    requires IsLive(s, a) && RecordAt(s, s.headers[a].slab)
    ensures s.slabs[s.headers[a].slab].inUse > 0
    ensures var i := s.headers[a].slab;
      SlabOk(Give(s, a, keep).slabs[i], i, Give(s, a, keep).frees[i], Give(s, a, keep).headers) &&
      Relinked(s.headers, Give(s, a, keep).headers, s.slabs[i])
  {
    var i := s.headers[a].slab;
    var f, x := s.frees[i], s.slabs[i];
    FreeRoom(x, f, a);
    var s' := Give(s, a, keep);
    forall k | 0 <= k < |f| + 1 ensures HopFree(s'.headers, [a] + f, k) {
      if k > 0 { assert HopFree(s.headers, f, k - 1) && f[k - 1] in f; }
    }
    SameSlots(x, s'.slabs[i]);
  }

  /** Distinct slots of a slab, and one more: there are fewer than the slab has. */
  lemma {:induction false} FreeRoom(x: Slab, f: seq<nat>, a: nat)
    requires Distinct(f) && (forall b :: b in f ==> IsSlot(x, b)) && IsSlot(x, a) && a !in f
    ensures |f| < Capacity(x.cache)
  {
    var all := AllSlots(x.page, x.cache, Capacity(x.cache));
    forall b | b in Members(f) + {a} ensures b in all { SlotListed(x, b); }
    MembersSize(f);
    SetSize(Members(f) + {a}, all);
    AllSlotsSize(x.page, x.cache, Capacity(x.cache));
  }

  lemma {:induction false} SlotListed(x: Slab, a: nat)
    requires IsSlot(x, a)
    ensures a in AllSlots(x.page, x.cache, Capacity(x.cache))
  {
  }

  ghost function Members(f: seq<nat>): set<nat> { set b | b in f }

  ghost function AllSlots(page: nat, c: nat, n: nat): set<nat> {
    set k | 0 <= k < n :: SlotAt(page, c, k)
  }

  lemma {:induction false} AllSlotsSize(page: nat, c: nat, n: nat)
    ensures |AllSlots(page, c, n)| <= n
  {
    if n > 0 {
      AllSlotsSize(page, c, n - 1);
      assert AllSlots(page, c, n) == AllSlots(page, c, n - 1) + {SlotAt(page, c, n - 1)};
    }
  }

  lemma {:induction false} SetSize(a: set<nat>, b: set<nat>)
    requires a <= b
    ensures |a| <= |b|
  {
    assert b == a + (b - a);
  }

  lemma {:induction false} MembersSize(f: seq<nat>)
    requires Distinct(f)
    ensures |Members(f)| == |f|
  {
    if f != [] {
      MembersSize(f[1..]);
      assert Members(f) == {f[0]} + Members(f[1..]);
      assert f[0] !in f[1..];
    }
  }

  /** No other record is the empty slab of this cache. */
  ghost predicate NoEmpty(s: State, c: nat) {
    forall j :: 0 <= j < |s.spots| ==> s.spots[j] != OnShelf(Empty(c))
  }

  lemma {:induction false} GivePairs(s: State, a: nat, keep: bool, j: nat, k: nat)
    requires Core(s) && IsLive(s, a) && s.slabs[s.headers[a].slab].inUse > 0 && j < |s.slabs| && k < |s.slabs|
    requires keep ==> NoEmpty(s, SlabOf(s, a).cache)
    ensures PairAt(Give(s, a, keep), j, k)
  {
    assert PairAt(s, j, k) && RecordAt(s, s.headers[a].slab);
  }

  lemma {:induction false} GiveInv(s: State, a: nat, keep: bool)
    requires Inv(s) && IsLive(s, a) && (keep ==> NoEmpty(s, SlabOf(s, a).cache))
    ensures SlabOf(s, a).inUse > 0 && Inv(Give(s, a, keep))
  {
    assert Unlocked(s, 0);
    var i := s.headers[a].slab;
    assert RecordAt(s, i);
    GiveSlab(s, a, keep);
    var s' := Give(s, a, keep);
    forall j | 0 <= j < |s.slabs| ensures RecordAt(s', j) {
      if j != i {
        assert RecordAt(s, j) && PairAt(s, i, j);
        SlabKept(s, s', i, j);
      }
    }
    forall j, k | 0 <= j < |s.slabs| && 0 <= k < |s.slabs| ensures PairAt(s', j, k) {
      GivePairs(s, a, keep, j, k);
    }
  }

  /** The live objects are the old ones without it. */
  lemma {:induction false} GiveLive(s: State, a: nat, keep: bool)
    requires Inv(s) && IsLive(s, a)
    ensures SlabOf(s, a).inUse > 0 && Live(Give(s, a, keep)) == Live(s) - {a}
  {
    assert Unlocked(s, 0);
    var i := s.headers[a].slab;
    assert RecordAt(s, i);
    GiveSlab(s, a, keep);
    var s' := Give(s, a, keep);
    SameSlots(s.slabs[i], s'.slabs[i]);
    forall b | b in s.headers ensures IsLive(s', b) <==> IsLive(s, b) && b != a {
      if s.headers[b].slab == i && !Active(s'.spots[i]) && IsLive(s, b) { LastObject(s, i, a, b); }
    }
  }

  /** A slab with one object in use has no second live slot. */
  lemma {:induction false} LastObject(s: State, i: nat, a: nat, b: nat)
    requires RecordAt(s, i) && Active(s.spots[i]) && s.slabs[i].inUse == 1
    requires IsSlot(s.slabs[i], a) && IsSlot(s.slabs[i], b) && a !in s.frees[i] && b !in s.frees[i]
    ensures a == b
  {
    if a != b {
      var f := s.frees[i];
      FreeRoom(s.slabs[i], [a] + f, b);
    }
  }

  // ------------------------------------------------------------------------------------
  // Cutting a page into slots
  // ------------------------------------------------------------------------------------

  /** After the first `k` slots have been put in front of the free list, one by one. */
  function CarvedHead(page: nat, c: nat, k: nat): int { if k == 0 then NONE else SlotAt(page, c, k - 1) }

  function CarvedFree(page: nat, c: nat, k: nat): seq<nat> {
    if k == 0 then [] else [SlotAt(page, c, k - 1)] + CarvedFree(page, c, k - 1)
  }

  function Carved(headers: map<nat, Header>, i: nat, page: nat, c: nat, k: nat): map<nat, Header> {
    if k == 0 then headers
    else Carved(headers, i, page, c, k - 1)[SlotAt(page, c, k - 1) := Header(i, CarvedHead(page, c, k - 1))]
  }

  lemma {:induction false} SlotsGrow(page: nat, c: nat, k: nat, l: nat)
    requires k < l
    ensures SlotAt(page, c, k) < SlotAt(page, c, l)
  {
    SizeFacts(c);
    Scale(k + 1, l, SlotSize(c));
    assert (k + 1) * SlotSize(c) == k * SlotSize(c) + SlotSize(c);
  }

  lemma {:induction false} CarvedFreeAt(page: nat, c: nat, k: nat)
    ensures |CarvedFree(page, c, k)| == k && Distinct(CarvedFree(page, c, k))
    ensures forall i :: 0 <= i < k ==> CarvedFree(page, c, k)[i] == SlotAt(page, c, k - 1 - i)
  {
    if k > 0 {
      CarvedFreeAt(page, c, k - 1);
      var f := CarvedFree(page, c, k);
      forall i | 0 < i < k ensures f[i] != f[0] {
        SlotsGrow(page, c, k - 1 - i, k - 1);
      }
    }
  }

  /** What the loop has written, and what it has left alone. */
  lemma {:induction false} CarvedAt(headers: map<nat, Header>, i: nat, page: nat, c: nat, k: nat, l: nat)
    requires l < k
    ensures SlotAt(page, c, l) in Carved(headers, i, page, c, k) &&
            Carved(headers, i, page, c, k)[SlotAt(page, c, l)] == Header(i, CarvedHead(page, c, l))
  {
    if l < k - 1 {
      CarvedAt(headers, i, page, c, k - 1, l);
      SlotsGrow(page, c, l, k - 1);
    }
  }

  lemma {:induction false} CarvedElsewhere(headers: map<nat, Header>, i: nat, page: nat, c: nat, k: nat, a: nat)
    requires forall l :: 0 <= l < k ==> a != SlotAt(page, c, l)
    ensures a in Carved(headers, i, page, c, k) <==> a in headers
    ensures a in headers ==> Carved(headers, i, page, c, k)[a] == headers[a]
  {
    if k > 0 {
      CarvedElsewhere(headers, i, page, c, k - 1, a);
    }
  }

  /** A spare record becomes a slab on a fresh page, all of it free. */
  function Open(s: State, i: nat, c: nat, page: nat): State
    requires i < |s.slabs| == |s.frees| == |s.spots|
  {
    var n := Capacity(c);
    s.(slabs := s.slabs[i := Slab(c, page, CarvedHead(page, c, n), 0, n)],
       frees := s.frees[i := CarvedFree(page, c, n)],
       headers := Carved(s.headers, i, page, c, n), spots := s.spots[i := OnShelf(Empty(c))])
  }

  /** The page belongs to no slab in use. */
  ghost predicate NewPage(s: State, page: nat) {
    page % PAGE == 0 && |s.spots| == |s.slabs| &&
    forall j :: 0 <= j < |s.slabs| && Active(s.spots[j]) ==> s.slabs[j].page != page
  }

  lemma {:induction false} OpenSlab(s: State, i: nat, c: nat, page: nat)
    requires i < |s.slabs| == |s.frees| == |s.spots| && c < CACHES && page % PAGE == 0
    ensures RecordAt(Open(s, i, c, page), i) && Open(s, i, c, page).frees[i] != []
  {
    var s', n := Open(s, i, c, page), Capacity(c);
    var f, x := CarvedFree(page, c, n), s'.slabs[i];
    SizeFacts(c);
    DivideBack(PAGE, SlotSize(c));
    CarvedFreeAt(page, c, n);
    forall k | 0 <= k < n ensures HopFree(s'.headers, f, k) {
      CarvedAt(s.headers, i, page, c, n, n - 1 - k);
    }
    forall a | a in f ensures IsSlot(x, a) {
      var k :| 0 <= k < n && f[k] == a;
      assert a == SlotAt(x.page, x.cache, n - 1 - k);
    }
    forall a | IsSlot(x, a) ensures a in s'.headers && s'.headers[a].slab == i {
      var k :| 0 <= k < n && a == SlotAt(x.page, x.cache, k);
      CarvedAt(s.headers, i, page, c, n, k);
    }
  }

  /** Headers of slots of other pages are not written. */
  lemma {:induction false} OpenElsewhere(s: State, i: nat, c: nat, page: nat, x: Slab, a: nat)
    requires i < |s.slabs| == |s.frees| == |s.spots| && page % PAGE == 0 && x.page % PAGE == 0 && x.page != page &&
      IsSlot(x, a)
    ensures a in Open(s, i, c, page).headers <==> a in s.headers
    ensures a in s.headers ==> Open(s, i, c, page).headers[a] == s.headers[a]
  {
    forall l | 0 <= l < Capacity(c) ensures a != SlotAt(page, c, l) {
      assert IsSlot(Slab(c, page, NONE, 0, 0), SlotAt(page, c, l));
      OtherPage(x, Slab(c, page, NONE, 0, 0), a);
    }
    CarvedElsewhere(s.headers, i, page, c, Capacity(c), a);
  }

  lemma {:induction false} OpenKept(s: State, i: nat, c: nat, page: nat, j: nat)
    requires RecordAt(s, j) && i < |s.slabs| && i != j && page % PAGE == 0 &&
      (Active(s.spots[j]) ==> s.slabs[j].page != page)
    ensures RecordAt(Open(s, i, c, page), j)
  {
    var s' := Open(s, i, c, page);
    if Active(s.spots[j]) {
      var x, f := s.slabs[j], s.frees[j];
      forall k | 0 <= k < |f| ensures HopFree(s'.headers, f, k) {
        assert HopFree(s.headers, f, k) && f[k] in f;
        OpenElsewhere(s, i, c, page, x, f[k]);
      }
      forall a | IsSlot(x, a) ensures a in s'.headers && s'.headers[a].slab == j {
        OpenElsewhere(s, i, c, page, x, a);
      }
    }
  }

  lemma {:induction false} OpenInv(s: State, i: nat, c: nat, page: nat)
    requires Inv(s) && i < |s.slabs| && s.spots[i] == OnShelf(Spare) && c < CACHES && NewPage(s, page) && NoEmpty(s, c)
    ensures Inv(Open(s, i, c, page)) && Open(s, i, c, page).frees[i] != []
  {
    assert Unlocked(s, 0);
    var s' := Open(s, i, c, page);
    OpenSlab(s, i, c, page);
    forall j | 0 <= j < |s.slabs| ensures RecordAt(s', j) {
      if j != i {
        assert RecordAt(s, j);
        OpenKept(s, i, c, page, j);
      }
    }
    forall j, k | 0 <= j < |s.slabs| && 0 <= k < |s.slabs| ensures PairAt(s', j, k) {
      assert PairAt(s, j, k);
    }
  }

  /** A fresh slab brings no live object and loses none. */
  lemma {:induction false} OpenLive(s: State, i: nat, c: nat, page: nat)
    requires Inv(s) && i < |s.slabs| && s.spots[i] == OnShelf(Spare) && c < CACHES && NewPage(s, page)
    ensures Live(Open(s, i, c, page)) == Live(s)
  {
    assert Unlocked(s, 0);
    var s' := Open(s, i, c, page);
    forall a | IsLive(s, a) ensures IsLive(s', a) {
      var j := s.headers[a].slab;
      assert RecordAt(s, j);
      OpenElsewhere(s, i, c, page, s.slabs[j], a);
    }
    forall a | IsLive(s', a) ensures IsLive(s, a) {
      var j := s'.headers[a].slab;
      if j == i {
        CarvedAll(page, c, a, s'.slabs[i]);
      } else {
        assert RecordAt(s, j);
        OpenElsewhere(s, i, c, page, s.slabs[j], a);
      }
    }
  }

  lemma {:induction false} CarvedAll(page: nat, c: nat, a: nat, x: Slab)
    requires x.page == page && x.cache == c && IsSlot(x, a)
    ensures a in CarvedFree(page, c, Capacity(c))
  {
    var n := Capacity(c);
    CarvedFreeAt(page, c, n);
    var k :| 0 <= k < n && a == SlotAt(page, c, k);
    assert CarvedFree(page, c, n)[n - 1 - k] == a;
  }

  // ------------------------------------------------------------------------------------
  // The pages of the slabs in use
  // ------------------------------------------------------------------------------------

  ghost function Pages(s: State): set<nat>
    requires |s.spots| == |s.slabs|
  {
    set i | 0 <= i < |s.slabs| && Active(s.spots[i]) :: s.slabs[i].page
  }

  /** One record changes and keeps its page and its being in use. */
  lemma {:induction false} PagesKept(s: State, i: nat, x: Slab, p: Spot)
    requires i < |s.slabs| == |s.spots| && x.page == s.slabs[i].page && Active(p) && Active(s.spots[i])
    ensures Pages(s.(slabs := s.slabs[i := x], spots := s.spots[i := p])) == Pages(s)
  {
    var r := s.(slabs := s.slabs[i := x], spots := s.spots[i := p]);
    forall a ensures a in Pages(r) <==> a in Pages(s) {
      if a in Pages(s) {
        var j :| 0 <= j < |s.slabs| && Active(s.spots[j]) && s.slabs[j].page == a;
        assert Active(r.spots[j]) && r.slabs[j].page == a;
      }
      if a in Pages(r) {
        var j :| 0 <= j < |r.slabs| && Active(r.spots[j]) && r.slabs[j].page == a;
        assert Active(s.spots[j]) && s.slabs[j].page == a;
      }
    }
  }

  /** A spare record that comes into use adds its page. */
  lemma {:induction false} PagesAdded(s: State, i: nat, x: Slab, p: Spot)
    requires i < |s.slabs| == |s.spots| && !Active(s.spots[i]) && Active(p)
    ensures Pages(s.(slabs := s.slabs[i := x], spots := s.spots[i := p])) == Pages(s) + {x.page}
  {
    var r := s.(slabs := s.slabs[i := x], spots := s.spots[i := p]);
    assert Active(r.spots[i]) && r.slabs[i].page == x.page;
    forall a | a in Pages(s) ensures a in Pages(r) {
      var j :| 0 <= j < |s.slabs| && Active(s.spots[j]) && s.slabs[j].page == a;
      assert Active(r.spots[j]) && r.slabs[j].page == a;
    }
  }

  /** A record that goes out of use takes its page with it. */
  lemma {:induction false} PagesDropped(s: State, i: nat, x: Slab, p: Spot)
    requires Inv(s) && i < |s.slabs| && Active(s.spots[i]) && !Active(p)
    ensures Pages(s.(slabs := s.slabs[i := x], spots := s.spots[i := p])) == Pages(s) - {s.slabs[i].page}
  {
    assert Unlocked(s, 0);
    var r := s.(slabs := s.slabs[i := x], spots := s.spots[i := p]);
    forall j | 0 <= j < |s.slabs| && j != i && Active(s.spots[j]) ensures s.slabs[j].page != s.slabs[i].page {
      assert PairAt(s, i, j);
    }
    forall a | a in Pages(s) - {s.slabs[i].page} ensures a in Pages(r) {
      var j :| 0 <= j < |s.slabs| && Active(s.spots[j]) && s.slabs[j].page == a;
      assert Active(r.spots[j]) && r.slabs[j].page == a;
    }
  }

  /** A page outside the set belongs to no slab. */
  lemma {:induction false} NewPageOutside(s: State, page: nat)
    requires Inv(s) && page % PAGE == 0
    ensures NewPage(s, page) <==> page !in Pages(s)
  {
  }
}
