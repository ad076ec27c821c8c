/** The height-balanced tree of address intervals, as a value.

    A `Tree` records the shape that the pool-backed nodes of `VmaPool` form: which pool
    slot sits where and which interval it holds.  The operations below are the ones the
    kernel performs by rewriting links; here they are functions, and what they promise is
    stated against the plain sorted list of intervals `InOrder`. */
module IntervalTree {

  /** A half-open address range with its flags. */
  datatype Interval = Interval(start: nat, end: nat, flags: nat)

  datatype Tree = Leaf | Node(left: Tree, id: nat, iv: Interval, right: Tree)

  function Height(t: Tree): nat {
    if t.Leaf? then 0
    else 1 + if Height(t.left) > Height(t.right) then Height(t.left) else Height(t.right)
  }

  function Size(t: Tree): nat {
    if t.Leaf? then 0 else Size(t.left) + 1 + Size(t.right)
  }

  function Ids(t: Tree): set<nat> {
    if t.Leaf? then {} else Ids(t.left) + {t.id} + Ids(t.right)
  }

  function InOrder(t: Tree): seq<Interval> {
    if t.Leaf? then [] else InOrder(t.left) + [t.iv] + InOrder(t.right)
  }

  /** Every node's subtrees differ in height by at most one. */
  predicate Avl(t: Tree) {
    t.Leaf? || (Avl(t.left) && Avl(t.right) && -1 <= Height(t.left) - Height(t.right) <= 1)
  }

  /** No pool slot is used twice. */
  predicate Distinct(t: Tree) {
    t.Leaf? ||
    (Distinct(t.left) && Distinct(t.right) &&
     t.id !in Ids(t.left) && t.id !in Ids(t.right) && Ids(t.left) !! Ids(t.right))
  }

  predicate Disjoint(a: Interval, b: Interval) {
    a.end <= b.start || b.end <= a.start
  }

  /** Non-empty intervals in increasing order, none overlapping another. */
  ghost predicate Sorted(s: seq<Interval>) {
    (forall i :: 0 <= i < |s| ==> s[i].start < s[i].end) &&
    (forall i, j :: 0 <= i < j < |s| ==> s[i].end <= s[j].start)
  }

  // ------------------------------------------------------------------------------------
  // The list operations that the tree operations are measured against
  // ------------------------------------------------------------------------------------

  /** `iv` put in front of the first interval that does not lie below it. */
  function Place(s: seq<Interval>, iv: Interval): seq<Interval> {
    if s == [] || iv.end <= s[0].start then [iv] + s else [s[0]] + Place(s[1..], iv)
  }

  /** The list without its first interval equal to `[start, end)`. */
  function Take(s: seq<Interval>, start: nat, end: nat): seq<Interval> {
    if s == [] then []
    else if s[0].start == start && s[0].end == end then s[1..]
    else [s[0]] + Take(s[1..], start, end)
  }

  ghost predicate Holds(s: seq<Interval>, start: nat, end: nat) {
    exists x :: x in s && x.start == start && x.end == end
  }

  lemma {:induction false} PlaceLeft(a: seq<Interval>, m: Interval, b: seq<Interval>, iv: Interval)
    requires iv.end <= m.start
    ensures Place(a + [m] + b, iv) == Place(a, iv) + [m] + b
  {
    if a == [] {
      assert a + [m] + b == [m] + b;
      assert [iv] + ([m] + b) == [iv] + [m] + b;
    } else {
      PlaceLeft(a[1..], m, b, iv);
      assert (a + [m] + b)[1..] == a[1..] + [m] + b;
    }
  }

  lemma {:induction false} PlaceRight(a: seq<Interval>, m: Interval, b: seq<Interval>, iv: Interval)
    requires iv.start < iv.end && m.end <= iv.start
    requires Sorted(a + [m] + b)
    ensures Place(a + [m] + b, iv) == a + [m] + Place(b, iv)
  {
    var s := a + [m] + b;
    assert s[|a|] == m;
    if a == [] {
      assert s == [m] + b && s[1..] == b;
    } else {
      assert s[0].end <= m.start;
      assert s[1..] == a[1..] + [m] + b;
      PlaceRight(a[1..], m, b, iv);
      assert [a[0]] + (a[1..] + [m] + Place(b, iv)) == a + [m] + Place(b, iv);
    }
  }

  lemma {:induction false} SortedCons(x: Interval, s: seq<Interval>)
    requires Sorted(s) && x.start < x.end && forall y :: y in s ==> x.end <= y.start
    ensures Sorted([x] + s)
  {
    var t := [x] + s;
    forall j | 0 < j < |t| ensures x.end <= t[j].start { assert t[j] == s[j - 1] && s[j - 1] in s; }
  }

  lemma {:induction false} SortedTail(s: seq<Interval>)
    requires Sorted(s) && s != []
    ensures Sorted(s[1..]) && forall y :: y in s[1..] ==> s[0].end <= y.start
  {
    forall y | y in s[1..] ensures s[0].end <= y.start {
      var j :| 0 <= j < |s[1..]| && s[1..][j] == y;
      assert s[j + 1] == y;
    }
  }

  lemma {:induction false} PlaceElements(s: seq<Interval>, iv: Interval)
    ensures multiset(Place(s, iv)) == multiset(s) + multiset{iv}
    ensures forall x :: x in Place(s, iv) <==> x in s || x == iv
  {
    if s != [] && iv.end > s[0].start {
      PlaceElements(s[1..], iv);
      assert s == [s[0]] + s[1..];
    }
  }

  /** Placing a disjoint non-empty interval keeps the list sorted. */
  lemma {:induction false} PlaceSorted(s: seq<Interval>, iv: Interval)
    requires Sorted(s) && iv.start < iv.end
    requires forall x :: x in s ==> Disjoint(x, iv)
    ensures Sorted(Place(s, iv))
  {
    if s == [] {
      SortedCons(iv, s);
    } else {
      SortedTail(s);
      assert s == [s[0]] + s[1..];
      if iv.end <= s[0].start {
        SortedCons(iv, s);
      } else {
        assert s[0] in s;
        PlaceSorted(s[1..], iv);
        PlaceElements(s[1..], iv);
        SortedCons(s[0], Place(s[1..], iv));
      }
    }
  }

  lemma {:induction false} TakeNone(s: seq<Interval>, start: nat, end: nat)
    requires !Holds(s, start, end)
    ensures Take(s, start, end) == s
  {
    if s != [] {
      assert s == [s[0]] + s[1..] && s[0] in s;
      TakeNone(s[1..], start, end);
    }
  }

  lemma {:induction false} TakeConcat(a: seq<Interval>, b: seq<Interval>, start: nat, end: nat)
    ensures Take(a + b, start, end) ==
            if Holds(a, start, end) then Take(a, start, end) + b else a + Take(b, start, end)
  {
    if a == [] {
      assert a + b == b;
    } else {
      assert (a + b)[1..] == a[1..] + b;
      assert a == [a[0]] + a[1..] && a[0] in a;
      if a[0].start != start || a[0].end != end {
        TakeConcat(a[1..], b, start, end);
        assert [a[0]] + (a[1..] + Take(b, start, end)) == a + Take(b, start, end);
      }
    }
  }

  lemma {:induction false} TakeLeft(a: seq<Interval>, m: Interval, b: seq<Interval>, start: nat, end: nat)
    requires start != m.start && forall x :: x in b ==> x.start != start
    ensures Take(a + [m] + b, start, end) == Take(a, start, end) + [m] + b
    ensures Holds(a + [m] + b, start, end) <==> Holds(a, start, end)
  {
    var c := [m] + b;
    assert a + [m] + b == a + c;
    TakeNone(c, start, end);
    TakeConcat(a, c, start, end);
    if !Holds(a, start, end) { TakeNone(a, start, end); }
    assert Take(a, start, end) + c == Take(a, start, end) + [m] + b;
  }

  lemma {:induction false} TakeRight(a: seq<Interval>, m: Interval, b: seq<Interval>, start: nat, end: nat)
    requires start != m.start && forall x :: x in a ==> x.start != start
    ensures Take(a + [m] + b, start, end) == a + [m] + Take(b, start, end)
    ensures Holds(a + [m] + b, start, end) <==> Holds(b, start, end)
  {
    TakeConcat(a + [m], b, start, end);
  }

  lemma {:induction false} TakeMiddle(a: seq<Interval>, m: Interval, b: seq<Interval>, end: nat)
    requires forall x :: x in a ==> x.start != m.start
    requires forall x :: x in b ==> x.start != m.start
    ensures Holds(a + [m] + b, m.start, end) <==> end == m.end
    ensures Take(a + [m] + b, m.start, m.end) == a + b
  {
    assert m in a + [m] + b;
    TakeConcat(a, [m] + b, m.start, m.end);
    assert a + ([m] + b) == a + [m] + b;
  }

  /** Taking an interval out keeps the list sorted. */
  lemma {:induction false} TakeSorted(s: seq<Interval>, start: nat, end: nat)
    requires Sorted(s)
    ensures Sorted(Take(s, start, end))
    ensures forall x :: x in Take(s, start, end) ==> x in s
  {
    if s != [] {
      SortedTail(s);
      TakeSorted(s[1..], start, end);
      assert s == [s[0]] + s[1..];
      if s[0].start != start || s[0].end != end { SortedCons(s[0], Take(s[1..], start, end)); }
    }
  }

  /** Taking an interval out undoes placing it. */
  lemma {:induction false} TakeUndoesPlace(s: seq<Interval>, iv: Interval)
    requires Sorted(s) && iv.start < iv.end
    requires forall x :: x in s ==> Disjoint(x, iv)
    ensures Take(Place(s, iv), iv.start, iv.end) == s
  {
    if s == [] || iv.end <= s[0].start {
    } else {
      assert s[0] in s;
      TakeUndoesPlace(s[1..], iv);
    }
  }

  // ------------------------------------------------------------------------------------
  // Rotations and rebalancing
  // ------------------------------------------------------------------------------------

  function RotateRight(t: Tree): Tree
    requires t.Node? && t.left.Node?
  {
    t.left.(right := t.(left := t.left.right))
  }

  function RotateLeft(t: Tree): Tree
    requires t.Node? && t.right.Node?
  {
    t.right.(left := t.(right := t.right.left))
  }

  function Factor(t: Tree): int
    requires t.Node?
  {
    Height(t.left) - Height(t.right)
  }

  function Rebalance(t: Tree): Tree
    requires t.Node?
  {
    if Factor(t) > 1 then
      RotateRight(if Factor(t.left) < 0 then t.(left := RotateLeft(t.left)) else t)
    else if Factor(t) < -1 then
      RotateLeft(if Factor(t.right) > 0 then t.(right := RotateRight(t.right)) else t)
    else t
  }

  /** Two balanced subtrees whose heights differ by at most two are repaired by one call:
      the result is balanced, no taller than before and at most one level shorter. */
  lemma {:induction false} RebalanceRepairs(t: Tree)
    requires t.Node? && Avl(t.left) && Avl(t.right) && -2 <= Factor(t) <= 2
    ensures Avl(Rebalance(t))
    ensures Height(t) - 1 <= Height(Rebalance(t)) <= Height(t)
    ensures -1 <= Factor(t) <= 1 ==> Rebalance(t) == t
  {
    if Factor(t) > 1 { RepairLeft(t); }
    if Factor(t) < -1 { RepairRight(t); }
  }

  lemma {:induction false} RepairLeft(t: Tree)
    requires t.Node? && Avl(t.left) && Avl(t.right) && Factor(t) == 2
    ensures Avl(Rebalance(t)) && Height(t) - 1 <= Height(Rebalance(t)) <= Height(t)
  {
    var l := t.left;
    if Factor(l) < 0 {
      var m := l.right;
      var lo, hi := l.(right := m.left), t.(left := m.right);
      assert Rebalance(t) == Node(lo, m.id, m.iv, hi);
      assert Avl(lo) && Avl(hi) && Height(lo) == Height(hi) == Height(t) - 2;
    } else {
      var hi := t.(left := l.right);
      assert Rebalance(t) == Node(l.left, l.id, l.iv, hi);
      assert Avl(hi);
    }
  }

  lemma {:induction false} RepairRight(t: Tree)
    requires t.Node? && Avl(t.left) && Avl(t.right) && Factor(t) == -2
    ensures Avl(Rebalance(t)) && Height(t) - 1 <= Height(Rebalance(t)) <= Height(t)
  {
    var r := t.right;
    if Factor(r) > 0 {
      var m := r.left;
      var lo, hi := t.(right := m.left), r.(left := m.right);
      assert Rebalance(t) == Node(lo, m.id, m.iv, hi);
      assert Avl(lo) && Avl(hi) && Height(lo) == Height(hi) == Height(t) - 2;
    } else {
      var lo := t.(right := r.left);
      assert Rebalance(t) == Node(lo, r.id, r.iv, r.right);
      assert Avl(lo);
    }
  }

  lemma {:induction false} RotateRightKeeps(t: Tree)
    requires t.Node? && t.left.Node?
    ensures InOrder(RotateRight(t)) == InOrder(t) && Ids(RotateRight(t)) == Ids(t)
    ensures Distinct(t) ==> Distinct(RotateRight(t))
  {
    var l := t.left;
    var hi := t.(left := l.right);
    assert RotateRight(t) == Node(l.left, l.id, l.iv, hi);
    assert InOrder(hi) == InOrder(l.right) + [t.iv] + InOrder(t.right);
    assert InOrder(l) == InOrder(l.left) + [l.iv] + InOrder(l.right);
    assert InOrder(l.left) + [l.iv] + InOrder(hi) == InOrder(l) + [t.iv] + InOrder(t.right);
    assert Ids(hi) == Ids(l.right) + {t.id} + Ids(t.right);
    assert Ids(l) == Ids(l.left) + {l.id} + Ids(l.right);
    if Distinct(t) { assert Distinct(l) && Distinct(hi); }
  }

  lemma {:induction false} RotateLeftKeeps(t: Tree)
    requires t.Node? && t.right.Node?
    ensures InOrder(RotateLeft(t)) == InOrder(t) && Ids(RotateLeft(t)) == Ids(t)
    ensures Distinct(t) ==> Distinct(RotateLeft(t))
  {
    var r := t.right;
    var lo := t.(right := r.left);
    assert RotateLeft(t) == Node(lo, r.id, r.iv, r.right);
    assert InOrder(lo) == InOrder(t.left) + [t.iv] + InOrder(r.left);
    assert InOrder(r) == InOrder(r.left) + [r.iv] + InOrder(r.right);
    assert InOrder(lo) + [r.iv] + InOrder(r.right) == InOrder(t.left) + [t.iv] + InOrder(r);
    assert Ids(lo) == Ids(t.left) + {t.id} + Ids(r.left);
    assert Ids(r) == Ids(r.left) + {r.id} + Ids(r.right);
    if Distinct(t) { assert Distinct(r) && Distinct(lo); }
  }

  lemma {:induction false} RebalanceKeeps(t: Tree)
    requires t.Node?
    ensures InOrder(Rebalance(t)) == InOrder(t)
    ensures Ids(Rebalance(t)) == Ids(t)
    ensures Distinct(t) ==> Distinct(Rebalance(t))
  {
    if Factor(t) > 1 {
      if Factor(t.left) < 0 {
        RotateLeftKeeps(t.left);
        RotateRightKeeps(t.(left := RotateLeft(t.left)));
      } else {
        RotateRightKeeps(t);
      }
    } else if Factor(t) < -1 {
      if Factor(t.right) > 0 {
        RotateRightKeeps(t.right);
        RotateLeftKeeps(t.(right := RotateRight(t.right)));
      } else {
        RotateLeftKeeps(t);
      }
    }
  }

  // ------------------------------------------------------------------------------------
  // Insertion
  // ------------------------------------------------------------------------------------

  datatype Inserted = Inserted(tree: Tree, ok: bool)

  function Insert(t: Tree, id: nat, iv: Interval): Inserted {
    if t.Leaf? then Inserted(Node(Leaf, id, iv, Leaf), true)
    else if iv.end <= t.iv.start then
      var sub := Insert(t.left, id, iv);
      if sub.ok then Inserted(Rebalance(t.(left := sub.tree)), true) else Inserted(t, false)
    else if iv.start >= t.iv.end then
      var sub := Insert(t.right, id, iv);
      if sub.ok then Inserted(Rebalance(t.(right := sub.tree)), true) else Inserted(t, false)
    else Inserted(t, false)
  }

  lemma {:induction false} SortedParts(a: seq<Interval>, m: Interval, b: seq<Interval>)
    requires Sorted(a + [m] + b)
    ensures Sorted(a) && Sorted(b) && m.start < m.end
    ensures forall x :: x in a ==> x.start < x.end <= m.start
    ensures forall x :: x in b ==> m.end <= x.start < x.end
  {
    var s := a + [m] + b;
    assert s[|a|] == m;
    forall i | 0 <= i < |a| ensures s[i] == a[i] {}
    forall i | 0 <= i < |b| ensures s[|a| + 1 + i] == b[i] {}
    forall x | x in a ensures x.start < x.end <= m.start {
      var i :| 0 <= i < |a| && a[i] == x;
      assert s[i].end <= s[|a|].start;
    }
    forall x | x in b ensures m.end <= x.start < x.end {
      var i :| 0 <= i < |b| && b[i] == x;
      assert s[|a|].end <= s[|a| + 1 + i].start;
    }
    forall i, j | 0 <= i < j < |a| ensures a[i].end <= a[j].start { assert s[i].end <= s[j].start; }
    forall i, j | 0 <= i < j < |b| ensures b[i].end <= b[j].start { assert s[|a| + 1 + i].end <= s[|a| + 1 + j].start; }
  }

  /** Insertion succeeds exactly when nothing overlaps, and then the list of intervals is
      the old one with the new interval in its place. */
  lemma {:induction false} InsertCorrect(t: Tree, id: nat, iv: Interval)
    requires Sorted(InOrder(t)) && iv.start < iv.end
    ensures Insert(t, id, iv).ok <==> forall x :: x in InOrder(t) ==> Disjoint(x, iv)
    ensures Insert(t, id, iv).ok ==> InOrder(Insert(t, id, iv).tree) == Place(InOrder(t), iv)
    ensures !Insert(t, id, iv).ok ==> Insert(t, id, iv).tree == t
  {
    if t.Node? {
      var a, b := InOrder(t.left), InOrder(t.right);
      var s := InOrder(t);
      SortedParts(a, t.iv, b);
      assert s[|a|] == t.iv;
      assert forall x :: x in s <==> x in a || x == t.iv || x in b;
      if iv.end <= t.iv.start {
        InsertCorrect(t.left, id, iv);
        PlaceLeft(a, t.iv, b, iv);
        var u := t.(left := Insert(t.left, id, iv).tree);
        RebalanceKeeps(u);
      } else if iv.start >= t.iv.end {
        InsertCorrect(t.right, id, iv);
        PlaceRight(a, t.iv, b, iv);
        var u := t.(right := Insert(t.right, id, iv).tree);
        RebalanceKeeps(u);
      }
    }
  }

  /** Insertion keeps the tree balanced and at most one level taller. */
  lemma {:induction false} InsertBalanced(t: Tree, id: nat, iv: Interval)
    requires Avl(t)
    ensures Avl(Insert(t, id, iv).tree)
    ensures Height(t) <= Height(Insert(t, id, iv).tree) <= Height(t) + 1
  {
    if t.Node? {
      if iv.end <= t.iv.start {
        InsertBalanced(t.left, id, iv);
        var sub := Insert(t.left, id, iv);
        if sub.ok { RebalanceRepairs(t.(left := sub.tree)); }
      } else if iv.start >= t.iv.end {
        InsertBalanced(t.right, id, iv);
        var sub := Insert(t.right, id, iv);
        if sub.ok { RebalanceRepairs(t.(right := sub.tree)); }
      }
    }
  }

  lemma {:induction false} InsertIds(t: Tree, id: nat, iv: Interval)
    requires Distinct(t) && id !in Ids(t)
    ensures Distinct(Insert(t, id, iv).tree)
    ensures Ids(Insert(t, id, iv).tree) == if Insert(t, id, iv).ok then Ids(t) + {id} else Ids(t)
  {
    if t.Node? {
      if iv.end <= t.iv.start {
        InsertIds(t.left, id, iv);
        RebalanceKeeps(t.(left := Insert(t.left, id, iv).tree));
      } else if iv.start >= t.iv.end {
        InsertIds(t.right, id, iv);
        RebalanceKeeps(t.(right := Insert(t.right, id, iv).tree));
      }
    }
  }

  // ------------------------------------------------------------------------------------
  // Removal
  // ------------------------------------------------------------------------------------

  function Leftmost(t: Tree): Tree
    requires t.Node?
    ensures Leftmost(t).Node? && Leftmost(t).left.Leaf? && Leftmost(t).id in Ids(t)
  {
    if t.left.Leaf? then t else Leftmost(t.left)
  }

  datatype Removed = Missing | Removed(tree: Tree, freed: nat)

  /** Removal by exact range.  A node with two children takes over its successor's
      interval, and the successor's slot is the one that is given back. */
  function Remove(t: Tree, start: nat, end: nat): Removed
    decreases Size(t)
  {
    if t.Leaf? then Missing
    else if start < t.iv.start then
      match Remove(t.left, start, end)
      case Missing => Missing
      case Removed(l, f) => Removed(Rebalance(t.(left := l)), f)
    else if start > t.iv.start then
      match Remove(t.right, start, end)
      case Missing => Missing
      case Removed(r, f) => Removed(Rebalance(t.(right := r)), f)
    else if t.iv.end != end then Missing
    else if t.left.Leaf? then Removed(t.right, t.id)
    else if t.right.Leaf? then Removed(t.left, t.id)
    else
      var s := Leftmost(t.right).iv;
      match Remove(t.right, s.start, s.end)
      case Missing => Missing
      case Removed(r, f) => Removed(Rebalance(t.(iv := s, right := r)), f)
  }

  lemma {:induction false} LeftmostIsFirst(t: Tree)
    requires t.Node?
    ensures |InOrder(t)| > 0 && InOrder(t)[0] == Leftmost(t).iv
  {
    if t.left.Node? { LeftmostIsFirst(t.left); }
  }

  /** Removal succeeds exactly when that range is in the tree, and then the list of
      intervals is the old one without it. */
  lemma {:induction false} RemoveCorrect(t: Tree, start: nat, end: nat)
    requires Sorted(InOrder(t))
    ensures Remove(t, start, end).Removed? <==> Holds(InOrder(t), start, end)
    ensures Remove(t, start, end).Removed? ==>
              InOrder(Remove(t, start, end).tree) == Take(InOrder(t), start, end)
    decreases Size(t)
  {
    if t.Node? {
      var a, b := InOrder(t.left), InOrder(t.right);
      SortedParts(a, t.iv, b);
      if start < t.iv.start {
        RemoveCorrect(t.left, start, end);
        TakeLeft(a, t.iv, b, start, end);
        if Remove(t.left, start, end).Removed? {
          RebalanceKeeps(t.(left := Remove(t.left, start, end).tree));
        }
      } else if start > t.iv.start {
        RemoveCorrect(t.right, start, end);
        TakeRight(a, t.iv, b, start, end);
        if Remove(t.right, start, end).Removed? {
          RebalanceKeeps(t.(right := Remove(t.right, start, end).tree));
        }
      } else {
        RemoveHere(t, end);
      }
    }
  }

  lemma {:induction false} RemoveHere(t: Tree, end: nat)
    requires t.Node? && Sorted(InOrder(t))
    ensures Remove(t, t.iv.start, end).Removed? <==> Holds(InOrder(t), t.iv.start, end)
    ensures Remove(t, t.iv.start, end).Removed? ==>
              InOrder(Remove(t, t.iv.start, end).tree) == Take(InOrder(t), t.iv.start, end)
    decreases Size(t), 1
  {
    SortedParts(InOrder(t.left), t.iv, InOrder(t.right));
    TakeMiddle(InOrder(t.left), t.iv, InOrder(t.right), end);
    if t.iv.end == end && t.left.Node? && t.right.Node? { RemoveByCopy(t); }
  }

  /** With two children, the successor's interval moves up and is removed below. */
  lemma {:induction false} RemoveByCopy(t: Tree)
    requires t.Node? && t.left.Node? && t.right.Node? && Sorted(InOrder(t.right))
    ensures Remove(t, t.iv.start, t.iv.end).Removed?
    ensures InOrder(Remove(t, t.iv.start, t.iv.end).tree) == InOrder(t.left) + InOrder(t.right)
    decreases Size(t), 0
  {
    var b := InOrder(t.right);
    var succ := Leftmost(t.right).iv;
    LeftmostIsFirst(t.right);
    assert succ in b && Take(b, succ.start, succ.end) == b[1..];
    RemoveCorrect(t.right, succ.start, succ.end);
    var r := Remove(t.right, succ.start, succ.end).tree;
    RebalanceKeeps(t.(iv := succ, right := r));
    assert InOrder(t.left) + [succ] + b[1..] == InOrder(t.left) + b;
  }

  /** Removal keeps the tree balanced and at most one level shorter. */
  lemma {:induction false} RemoveBalanced(t: Tree, start: nat, end: nat)
    requires Avl(t) && Remove(t, start, end).Removed?
    ensures Avl(Remove(t, start, end).tree)
    ensures Height(t) - 1 <= Height(Remove(t, start, end).tree) <= Height(t)
    decreases Size(t)
  {
    if start < t.iv.start {
      RemoveBalanced(t.left, start, end);
      RebalanceRepairs(t.(left := Remove(t.left, start, end).tree));
    } else if start > t.iv.start {
      RemoveBalanced(t.right, start, end);
      RebalanceRepairs(t.(right := Remove(t.right, start, end).tree));
    } else if t.left.Node? && t.right.Node? {
      var s := Leftmost(t.right).iv;
      RemoveBalanced(t.right, s.start, s.end);
      RebalanceRepairs(t.(iv := s, right := Remove(t.right, s.start, s.end).tree));
    }
  }

  /** Removal gives back exactly one slot of the tree and keeps all the others. */
  lemma {:induction false} RemoveIds(t: Tree, start: nat, end: nat)
    requires Distinct(t) && Remove(t, start, end).Removed?
    ensures var r := Remove(t, start, end);
            Distinct(r.tree) && r.freed in Ids(t) && Ids(r.tree) == Ids(t) - {r.freed}
    decreases Size(t)
  {
    if start < t.iv.start {
      RemoveIds(t.left, start, end);
      RebalanceKeeps(t.(left := Remove(t.left, start, end).tree));
    } else if start > t.iv.start {
      RemoveIds(t.right, start, end);
      RebalanceKeeps(t.(right := Remove(t.right, start, end).tree));
    } else if t.left.Node? && t.right.Node? {
      var s := Leftmost(t.right).iv;
      RemoveIds(t.right, s.start, s.end);
      RebalanceKeeps(t.(iv := s, right := Remove(t.right, s.start, s.end).tree));
    }
  }

  // ------------------------------------------------------------------------------------
  // Height bound
  // ------------------------------------------------------------------------------------

  /** The fewest nodes a balanced tree of a given height can have. */
  function MinNodes(h: nat): nat {
    if h <= 1 then h else MinNodes(h - 1) + 1 + MinNodes(h - 2)
  }

  lemma {:induction false} MinNodesMonotonic(g: nat, h: nat)
    requires g <= h
    ensures MinNodes(g) <= MinNodes(h)
    decreases h
  {
    if g < h { MinNodesMonotonic(g, h - 1); }
  }

  lemma {:induction false} AvlHasMinNodes(t: Tree)
    requires Avl(t)
    ensures Size(t) >= MinNodes(Height(t))
  {
    if t.Node? {
      AvlHasMinNodes(t.left);
      AvlHasMinNodes(t.right);
      if Height(t) >= 2 {
        MinNodesMonotonic(Height(t) - 2, Height(t.left));
        MinNodesMonotonic(Height(t) - 2, Height(t.right));
      }
    }
  }

  lemma {:induction false} SizeIsIds(t: Tree)
    requires Distinct(t)
    ensures |Ids(t)| == Size(t) == |InOrder(t)|
  {
    if t.Node? {
      SizeIsIds(t.left);
      SizeIsIds(t.right);
      assert Ids(t) == (Ids(t.left) + {t.id}) + Ids(t.right);
    }
  }

  lemma {:induction false} SubsetOfRange(s: set<nat>, n: nat)
    requires forall x :: x in s ==> x < n
    ensures |s| <= n
    decreases n
  {
    if n > 0 {
      SubsetOfRange(s - {n - 1}, n - 1);
      assert s <= (s - {n - 1}) + {n - 1};
      if n - 1 in s { assert |s - {n - 1}| == |s| - 1; } else { assert s - {n - 1} == s; }
    }
  }

  lemma {:induction false} MinNodesOf16()
    ensures MinNodes(16) == 2583
  {
    assert MinNodes(4) == 7 && MinNodes(5) == 12 && MinNodes(6) == 20 && MinNodes(7) == 33;
    assert MinNodes(8) == 54 && MinNodes(9) == 88 && MinNodes(10) == 143 && MinNodes(11) == 232;
    assert MinNodes(12) == 376 && MinNodes(13) == 609 && MinNodes(14) == 986 && MinNodes(15) == 1596;
  }

  /** A balanced tree over the 2048-slot pool is at most 15 levels high. */
  lemma {:induction false} HeightBound(t: Tree)
    requires Avl(t) && Distinct(t) && forall x :: x in Ids(t) ==> x < 2048
    ensures Height(t) <= 15
  {
    AvlHasMinNodes(t);
    SizeIsIds(t);
    SubsetOfRange(Ids(t), 2048);
    if Height(t) >= 16 {
      MinNodesMonotonic(16, Height(t));
      MinNodesOf16();
    }
  }
}
