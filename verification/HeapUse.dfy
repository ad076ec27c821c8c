/** How well the heap uses its pages: how many slots a page has, and how many pages a cache sits on. */
module HeapUse {
  import opened TaskLists
  import opened SlabLists
  import opened HeapState

  /** The slot size is the least multiple of eight that holds header and object, and a slab has as
      many slots as fit in its page: one more would not. */
  lemma {:induction false} SlotsFillPage(c: nat)
    ensures SlotSize(c) % 8 == 0 && HEADER + ObjectSize(c) <= SlotSize(c) < HEADER + ObjectSize(c) + 8
    ensures Capacity(c) * SlotSize(c) <= PAGE < (Capacity(c) + 1) * SlotSize(c)
  {
    SizeFacts(c);
    Quotient(PAGE, SlotSize(c));
  }

  lemma {:induction false} Quotient(p: nat, z: nat)
    requires z > 0
    ensures p / z * z <= p < (p / z + 1) * z
  {
    assert p == p / z * z + p % z;
    assert (p / z + 1) * z == p / z * z + z;
  }

  /** A page that is cut: its slots side by side from the start on, each free once, each with a header
      that names the slab, as many as fit. */
  lemma {:induction false} CarvedPage(headers: map<nat, Header>, i: nat, page: nat, c: nat)
    ensures var n, f := Capacity(c), CarvedFree(page, c, Capacity(c));
      |f| == n && Distinct(f) && FreeChain(Carved(headers, i, page, c, n), CarvedHead(page, c, n), f) &&
      forall k :: 0 <= k < n ==>
        f[n - 1 - k] == page + k * SlotSize(c) &&
        SlotAt(page, c, k) in Carved(headers, i, page, c, n) &&
        Carved(headers, i, page, c, n)[SlotAt(page, c, k)].slab == i
  {
    var n, f, h := Capacity(c), CarvedFree(page, c, Capacity(c)), Carved(headers, i, page, c, Capacity(c));
    CarvedFreeAt(page, c, n);
    forall k | 0 <= k < n ensures HopFree(h, f, k) {
      CarvedAt(headers, i, page, c, n, n - 1 - k);
    }
    forall k | 0 <= k < n
      ensures f[n - 1 - k] == page + k * SlotSize(c) && SlotAt(page, c, k) in h && h[SlotAt(page, c, k)].slab == i
    {
      CarvedAt(headers, i, page, c, n, k);
    }
  }

  // ------------------------------------------------------------------------------------
  // Live objects and pages of a cache
  // ------------------------------------------------------------------------------------

  /** Record `i` is a slab in use of cache `c`. */
  predicate SlabIn(s: State, c: nat, i: nat) {
    i < |s.slabs| && |s.spots| == |s.slabs| && Active(s.spots[i]) && s.slabs[i].cache == c
  }

  /** The live objects of cache `c` in the first `n` records, and in all. */
  ghost function LiveBelow(s: State, c: nat, n: nat): set<nat> {
    set a | a in s.headers && IsLive(s, a) && s.headers[a].slab < n && SlabIn(s, c, s.headers[a].slab)
  }

  ghost function LiveIn(s: State, c: nat): set<nat> {
    set a | a in s.headers && IsLive(s, a) && SlabIn(s, c, s.headers[a].slab)
  }

  /** The pages of its slabs. */
  ghost function PagesBelow(s: State, c: nat, n: nat): set<nat> {
    set i | 0 <= i < n && SlabIn(s, c, i) :: s.slabs[i].page
  }

  ghost function PagesIn(s: State, c: nat): set<nat> {
    PagesBelow(s, c, |s.slabs|)
  }

  /** The objects that the records say are in use. */
  ghost function UseBelow(s: State, c: nat, n: nat): nat {
    if n == 0 then 0 else UseBelow(s, c, n - 1) + if SlabIn(s, c, n - 1) then s.slabs[n - 1].inUse else 0
  }

  ghost function SlabLive(s: State, i: nat): set<nat> {
    set a | a in s.headers && IsLive(s, a) && s.headers[a].slab == i
  }

  lemma {:induction false} AllSlotsExact(page: nat, c: nat, n: nat)
    ensures |AllSlots(page, c, n)| == n
  {
    if n > 0 {
      AllSlotsExact(page, c, n - 1);
      assert AllSlots(page, c, n) == AllSlots(page, c, n - 1) + {SlotAt(page, c, n - 1)};
      forall k | 0 <= k < n - 1 ensures SlotAt(page, c, k) != SlotAt(page, c, n - 1) { SlotsGrow(page, c, k, n - 1); }
    }
  }

  /** A slab's live objects are its slots that are not free, as many as its record says. */
  lemma {:induction false} SlabLiveSize(s: State, i: nat)
    requires i < |s.slabs| && RecordAt(s, i) && Active(s.spots[i])
    ensures |SlabLive(s, i)| == s.slabs[i].inUse
  {
    var x, f := s.slabs[i], s.frees[i];
    var all := AllSlots(x.page, x.cache, Capacity(x.cache));
    forall a ensures a in all <==> IsSlot(x, a) { }
    assert SlabLive(s, i) == all - Members(f);
    assert Members(f) <= all;
    MembersSize(f);
    AllSlotsExact(x.page, x.cache, Capacity(x.cache));
    Difference(all, Members(f));
  }

  lemma {:induction false} Difference(a: set<nat>, b: set<nat>)
    requires b <= a
    ensures |a - b| == |a| - |b|
  {
    assert a == b + (a - b);
  }

  lemma {:induction false} LiveCountBelow(s: State, c: nat, n: nat)
    requires Inv(s) && n <= |s.slabs|
    ensures |LiveBelow(s, c, n)| == UseBelow(s, c, n)
  {
    if n == 0 {
      assert LiveBelow(s, c, 0) == {};
    } else {
      var i := n - 1;
      LiveCountBelow(s, c, i);
      assert Unlocked(s, 0);
      assert RecordAt(s, i);
      if SlabIn(s, c, i) {
        SlabLiveSize(s, i);
        assert LiveBelow(s, c, n) == LiveBelow(s, c, i) + SlabLive(s, i);
        assert LiveBelow(s, c, i) !! SlabLive(s, i);
      } else {
        assert LiveBelow(s, c, n) == LiveBelow(s, c, i);
      }
    }
  }

  /** The live objects of a cache are as many as its slabs' records say in sum. */
  lemma {:induction false} LiveCount(s: State, c: nat)
    requires Inv(s)
    ensures |LiveIn(s, c)| == UseBelow(s, c, |s.slabs|)
  {
    assert LiveIn(s, c) == LiveBelow(s, c, |s.slabs|);
    LiveCountBelow(s, c, |s.slabs|);
  }

  /** Without a partial or empty slab, every slab of the cache is full; and no two have one page. */
  lemma {:induction false} FullBelow(s: State, c: nat, n: nat)
    requires Inv(s) && !Stocked(s, c) && n <= |s.slabs|
    ensures UseBelow(s, c, n) == |PagesBelow(s, c, n)| * Capacity(c)
  {
    if n == 0 {
      assert PagesBelow(s, c, 0) == {};
    } else {
      var i := n - 1;
      FullBelow(s, c, i);
      assert Unlocked(s, 0);
      assert RecordAt(s, i);
      if SlabIn(s, c, i) {
        assert PagesBelow(s, c, n) == PagesBelow(s, c, i) + {s.slabs[i].page};
        forall j | 0 <= j < i && SlabIn(s, c, j) ensures s.slabs[j].page != s.slabs[i].page { assert PairAt(s, j, i); }
        assert |PagesBelow(s, c, n)| == |PagesBelow(s, c, i)| + 1;
        assert s.spots[i] == OnShelf(Full(c)) && s.slabs[i].inUse == Capacity(c);
        OneMore(|PagesBelow(s, c, i)|, Capacity(c));
      } else {
        assert PagesBelow(s, c, n) == PagesBelow(s, c, i);
      }
    }
  }

  lemma {:induction false} OneMore(n: nat, z: nat)
    ensures (n + 1) * z == n * z + z
  {
  }

  lemma {:induction false} DivideExact(n: nat, z: nat)
    requires z > 0
    ensures n * z / z == n
  {
    var q := n * z / z;
    Quotient(n * z, z);
    OneMore(n, z);
    if q < n { Scale(q + 1, n, z); }
    if n < q { Scale(n + 1, q, z); }
  }

  /** Every slot that fits in the cache's pages is live. */
  ghost predicate Packed(s: State, c: nat) {
    |LiveIn(s, c)| == |PagesIn(s, c)| * (PAGE / SlotSize(c))
  }

  /** A cache with `n` live objects and no slot free sits on exactly `n` divided by the number of
      slots that fit in a page: every slot of its pages is live. */
  lemma {:induction false} PagesNeeded(s: State, c: nat)
    requires Inv(s) && !Stocked(s, c)
    ensures SlotSize(c) <= PAGE && Packed(s, c) && |PagesIn(s, c)| == |LiveIn(s, c)| / (PAGE / SlotSize(c))
  {
    SizeFacts(c);
    DivideBack(PAGE, SlotSize(c));
    LiveCount(s, c);
    FullBelow(s, c, |s.slabs|);
    DivideExact(|PagesIn(s, c)|, PAGE / SlotSize(c));
  }
}
