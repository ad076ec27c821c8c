/** The heap's singly linked lists of slab records: the free records, and for each cache its
    partial, full and empty slabs.  A record is its index in the pool, a null pointer is NONE. */
module SlabLists {
  import opened TaskLists

  datatype Shelf = Spare | Partial(cache: nat) | Full(cache: nat) | Empty(cache: nat)

  datatype Spot = Nowhere | OnShelf(shelf: Shelf)

  ghost predicate HopAt(next: seq<int>, s: seq<nat>, i: nat)
    requires i < |s|
  {
    s[i] < |next| && next[s[i]] == if i + 1 == |s| then NONE else s[i + 1]
  }

  /** Following `next` from `head` spells `s`. */
  ghost predicate Hops(next: seq<int>, head: int, s: seq<nat>) {
    head == (if s == [] then NONE else s[0]) && forall i :: 0 <= i < |s| ==> HopAt(next, s, i)
  }

  ghost predicate ShelfOk(next: seq<int>, head: int, s: seq<nat>, spots: seq<Spot>, n: Shelf) {
    Hops(next, head, s) && Distinct(s) && forall x :: x in s ==> x < |spots| && spots[x] == OnShelf(n)
  }

  ghost predicate SpotOk(shelves: map<Shelf, seq<nat>>, x: nat, p: Spot) {
    p.OnShelf? ==> p.shelf in shelves && x in shelves[p.shelf]
  }

  ghost predicate Shelved(next: seq<int>, heads: map<Shelf, int>, shelves: map<Shelf, seq<nat>>, spots: seq<Spot>) {
    heads.Keys == shelves.Keys && |spots| == |next| &&
    (forall n :: n in shelves ==> ShelfOk(next, heads[n], shelves[n], spots, n)) &&
    (forall x :: 0 <= x < |spots| ==> SpotOk(shelves, x, spots[x]))
  }

  lemma {:induction false} ShelfFrame(a: seq<int>, b: seq<int>, head: int, s: seq<nat>, spots: seq<Spot>,
                                      spots': seq<Spot>, n: Shelf)
    requires ShelfOk(a, head, s, spots, n) && |a| == |b| == |spots| == |spots'|
    requires forall x :: 0 <= x < |spots| && spots[x] == OnShelf(n) ==> b[x] == a[x] && spots'[x] == OnShelf(n)
    ensures ShelfOk(b, head, s, spots', n)
  {
    forall i | 0 <= i < |s| ensures HopAt(b, s, i) {
      assert HopAt(a, s, i) && s[i] in s;
    }
  }

  /** A record that is on no list goes to the front of one. */
  lemma {:induction false} ShelvedPush(next: seq<int>, heads: map<Shelf, int>, shelves: map<Shelf, seq<nat>>,
                                       spots: seq<Spot>, n: Shelf, x: nat)
    requires Shelved(next, heads, shelves, spots) && n in shelves && x < |spots| && spots[x] == Nowhere
    ensures Shelved(next[x := heads[n]], heads[n := x], shelves[n := [x] + shelves[n]], spots[x := OnShelf(n)])
  {
    var next', heads' := next[x := heads[n]], heads[n := x];
    var shelves', spots' := shelves[n := [x] + shelves[n]], spots[x := OnShelf(n)];
    forall m | m in shelves' ensures ShelfOk(next', heads'[m], shelves'[m], spots', m) {
      assert ShelfOk(next, heads[m], shelves[m], spots, m);
      if m != n {
        ShelfFrame(next, next', heads[m], shelves[m], spots, spots', m);
      } else {
        forall i | 0 <= i < |shelves'[n]| ensures HopAt(next', shelves'[n], i) {
          if i > 0 { assert HopAt(next, shelves[n], i - 1) && shelves[n][i - 1] in shelves[n]; }
        }
      }
    }
    forall y | 0 <= y < |spots'| ensures SpotOk(shelves', y, spots'[y]) {
      assert SpotOk(shelves, y, spots[y]);
    }
  }

  /** The links of a list after the record at position `k` has been taken out. */
  function Skip(next: seq<int>, s: seq<nat>, k: nat): seq<int>
    requires k < |s| && s[k] < |next| && (k > 0 ==> s[k - 1] < |next|)
  {
    var a := if k > 0 then next[s[k - 1] := next[s[k]]] else next;
    a[s[k] := NONE]
  }

  lemma {:induction false} SkipHops(next: seq<int>, head: int, s: seq<nat>, k: nat)
    requires Hops(next, head, s) && Distinct(s) && k < |s|
    ensures s[k] < |next| && (k > 0 ==> s[k - 1] < |next|)
    ensures Hops(Skip(next, s, k), if k > 0 then head else next[s[k]], s[..k] + s[k + 1..])
  {
    assert HopAt(next, s, k);
    if k > 0 { assert HopAt(next, s, k - 1); }
    var w, b := s[..k] + s[k + 1..], Skip(next, s, k);
    forall i | 0 <= i < |w| ensures HopAt(b, w, i) {
      var j := if i < k then i else i + 1;
      assert w[i] == s[j] && HopAt(next, s, j);
    }
  }

  /** What taking out a record does to the list itself. */
  lemma {:induction false} SkipHere(next: seq<int>, head: int, s: seq<nat>, spots: seq<Spot>, n: Shelf, k: nat)
    requires ShelfOk(next, head, s, spots, n) && k < |s| && |next| == |spots|
    ensures s[k] < |next| && (k > 0 ==> s[k - 1] < |next|)
    ensures ShelfOk(Skip(next, s, k), if k > 0 then head else next[s[k]], Without(s, s[k]), spots[s[k] := Nowhere], n)
    ensures forall x :: 0 <= x < |next| && x !in s ==> Skip(next, s, k)[x] == next[x]
    ensures forall x :: x in Without(s, s[k]) <==> x in s && x != s[k]
  {
    SkipHops(next, head, s, k);
    WithoutAt(s, k);
    WithoutElements(s, s[k]);
    assert k > 0 ==> s[k - 1] in s;
  }

  lemma {:induction false} ShelvedSkip(next: seq<int>, heads: map<Shelf, int>, shelves: map<Shelf, seq<nat>>,
                                       spots: seq<Spot>, n: Shelf, k: nat)
    requires Shelved(next, heads, shelves, spots) && n in shelves && k < |shelves[n]|
    ensures shelves[n][k] < |next| && (k > 0 ==> shelves[n][k - 1] < |next|)
    ensures Shelved(Skip(next, shelves[n], k), heads[n := if k > 0 then heads[n] else next[shelves[n][k]]],
                    shelves[n := Without(shelves[n], shelves[n][k])], spots[shelves[n][k] := Nowhere])
  {
    var s := shelves[n];
    var x := s[k];
    assert ShelfOk(next, heads[n], s, spots, n);
    SkipHere(next, heads[n], s, spots, n, k);
    var next', heads' := Skip(next, s, k), heads[n := if k > 0 then heads[n] else next[x]];
    var shelves', spots' := shelves[n := Without(s, x)], spots[x := Nowhere];
    forall m | m in shelves' ensures ShelfOk(next', heads'[m], shelves'[m], spots', m) {
      if m != n {
        assert ShelfOk(next, heads[m], shelves[m], spots, m);
        ShelfFrame(next, next', heads[m], shelves[m], spots, spots', m);
      }
    }
    forall y | 0 <= y < |spots'| ensures SpotOk(shelves', y, spots'[y]) {
      assert SpotOk(shelves, y, spots[y]);
    }
  }

  predicate Fixed(k: int) { true }

  class SlabLists {
    var next: seq<int>
    var heads: map<Shelf, int>
    ghost var shelves: map<Shelf, seq<nat>>
    ghost var spots: seq<Spot>

    ghost predicate Valid()
      reads this
    {
      heads.Keys == shelves.Keys && |spots| == |next| && forall k :: Fixed(k) ==> Shelved(next, heads, shelves, spots)
    }

    /** All records on the spare list, in order. */
    constructor (records: nat, names: set<Shelf>)
      requires Spare in names
      ensures Valid() && heads.Keys == names && |spots| == records &&
        forall x :: 0 <= x < records ==> spots[x] == OnShelf(Spare)
      ensures shelves[Spare] == seq(records, i => i) && forall n :: n in names && n != Spare ==> shelves[n] == []
    {
      next := seq(records, i => if i + 1 == records then NONE else i + 1);
      heads := map n | n in names :: if n == Spare && records > 0 then 0 else NONE;
      shelves := map n | n in names :: if n == Spare then seq(records, (i: nat) => i) else [];
      spots := seq(records, _ => OnShelf(Spare));
      new;
      forall n | n in shelves ensures ShelfOk(next, heads[n], shelves[n], spots, n) {
        forall i | 0 <= i < |shelves[n]| ensures HopAt(next, shelves[n], i) {
        }
      }
      forall x | 0 <= x < records ensures SpotOk(shelves, x, spots[x]) {
        assert shelves[Spare][x] == x;
      }
    }

    /** A record on a list has that list as its spot, and the other way round. */
    lemma {:induction false} SpotIs(n: Shelf, x: nat)
      requires Valid() && n in shelves
      ensures Distinct(shelves[n]) && (x in shelves[n] <==> x < |spots| && spots[x] == OnShelf(n))
      ensures heads[n] == if shelves[n] == [] then NONE else shelves[n][0]
    {
      assert Fixed(0);
      assert ShelfOk(next, heads[n], shelves[n], spots, n);
      if x < |spots| { assert SpotOk(shelves, x, spots[x]); }
    }

    /** `slab_list_push`. */
    method Push(n: Shelf, x: nat)
      requires Valid() && n in heads && x < |spots| && spots[x] == Nowhere
      modifies this
      ensures Valid() && heads.Keys == old(heads.Keys)
      ensures shelves == old(shelves)[n := [x] + old(shelves)[n]] && spots == old(spots)[x := OnShelf(n)]
    {
      assert Fixed(0);
      ShelvedPush(next, heads, shelves, spots, n, x);
      next, heads := next[x := heads[n]], heads[n := x];
      shelves, spots := shelves[n := [x] + shelves[n]], spots[x := OnShelf(n)];
    }

    /** The walk of `slab_list_remove` up to the record: the one before it, or NONE. */
    method FindBefore(n: Shelf, x: nat) returns (before: int, ghost k: nat)
      requires Valid() && n in heads && x < |spots| && spots[x] == OnShelf(n)
      ensures k < |shelves[n]| && shelves[n][k] == x && before == if k == 0 then NONE else shelves[n][k - 1]
    {
      SpotIs(n, x);
      assert Fixed(0);
      assert ShelfOk(next, heads[n], shelves[n], spots, n);
      before, k := NONE, 0;
      var cursor := heads[n];
      while cursor != x
        invariant k < |shelves[n]| && cursor == shelves[n][k] && before == (if k == 0 then NONE else shelves[n][k - 1])
        invariant x !in shelves[n][..k]
        decreases |shelves[n]| - k
      {
        assert HopAt(next, shelves[n], k);
        before := cursor;
        cursor := next[cursor];
        k := k + 1;
      }
    }

    /** `slab_list_remove` of a record that is on the list. */
    method Remove(n: Shelf, x: nat)
      requires Valid() && n in heads && x < |spots| && spots[x] == OnShelf(n)
      modifies this
      ensures Valid() && heads.Keys == old(heads.Keys) && n in old(shelves)
      ensures shelves == old(shelves)[n := Without(old(shelves)[n], x)] && spots == old(spots)[x := Nowhere]
    {
      var before;
      ghost var k;
      before, k := FindBefore(n, x);
      assert Fixed(0);
      ShelvedSkip(next, heads, shelves, spots, n, k);
      shelves, spots := shelves[n := Without(shelves[n], x)], spots[x := Nowhere];
      Unhook(n, x, before);
    }

    method Unhook(n: Shelf, x: nat, before: int)
      requires n in heads && x < |next| && (before == NONE || 0 <= before < |next|)
      modifies this`next, this`heads
      ensures heads == old(heads)[n := if before != NONE then old(heads)[n] else old(next)[x]]
      ensures next == (if before != NONE then old(next)[before := old(next)[x]] else old(next))[x := NONE]
    {
      if before != NONE {
        next := next[before := next[x]];
      } else {
        heads := heads[n := next[x]];
      }
      next := next[x := NONE];
    }
  }
}
