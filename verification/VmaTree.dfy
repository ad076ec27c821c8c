/** An interval tree over the shared node pool: the operations other subsystems call. */
module VmaTree {
  import opened Bits
  import opened IntervalTree
  import opened VmaPool
  import opened GapSearch

  /** The range overlaps none of the intervals. */
  ghost predicate Avoids(s: seq<Interval>, iv: Interval) {
    forall x :: x in s ==> Disjoint(x, iv)
  }

  /** A balanced tree of sorted disjoint 32-bit intervals. */
  ghost predicate Sound(t: Tree) {
    Distinct(t) && Avl(t) && Sorted(InOrder(t)) && U32Intervals(InOrder(t))
  }

  lemma {:induction false} InsertSound(t: Tree, id: nat, iv: Interval)
    requires Sound(t) && id !in Ids(t) && iv.start < iv.end <= U32_MAX
    ensures var r := IntervalTree.Insert(t, id, iv);
            (r.ok <==> Avoids(InOrder(t), iv)) &&
            if r.ok then
              Sound(r.tree) && InOrder(r.tree) == Place(InOrder(t), iv) &&
              Ids(r.tree) == Ids(t) + {id} && Size(r.tree) == Size(t) + 1
            else r.tree == t
  {
    InsertCorrect(t, id, iv);
    InsertBalanced(t, id, iv);
    InsertIds(t, id, iv);
    if IntervalTree.Insert(t, id, iv).ok {
      PlaceSorted(InOrder(t), iv);
      PlaceElements(InOrder(t), iv);
      SizeIsIds(t);
      SizeIsIds(IntervalTree.Insert(t, id, iv).tree);
    }
  }

  lemma {:induction false} RemoveSound(t: Tree, start: nat, end: nat)
    requires Sound(t)
    ensures var r := IntervalTree.Remove(t, start, end);
            (r.Removed? <==> Holds(InOrder(t), start, end)) &&
            InOrder(After(t, start, end)) == Take(InOrder(t), start, end) && Sound(After(t, start, end)) &&
            (r.Removed? ==> r.freed in Ids(t) && Ids(r.tree) == Ids(t) - {r.freed} && Size(r.tree) == Size(t) - 1)
  {
    RemoveCorrect(t, start, end);
    TakeSorted(InOrder(t), start, end);
    if IntervalTree.Remove(t, start, end).Removed? {
      RemoveIds(t, start, end);
      RemoveBalanced(t, start, end);
      SizeIsIds(t);
      SizeIsIds(After(t, start, end));
    } else {
      TakeNone(InOrder(t), start, end);
    }
  }

  class VmaTree {
    const pool: NodePool
    var root: int
    var nodeCount: nat
    /** The shape that the pool's links form from `root`. */
    ghost var shape: Tree

    /** The tree is balanced with exact stored heights, holds sorted disjoint 32-bit
        intervals, and its slots are among those the pool counts as used. */
    ghost predicate Valid()
      reads this, pool
    {
      pool.Valid() && root == Root(shape) && Represents(pool.nodes, shape) &&
      Sound(shape) && Ids(shape) <= pool.used && nodeCount == Size(shape)
    }

    ghost function Intervals(): seq<Interval>
      reads this
    {
      InOrder(shape)
    }

    constructor (pool: NodePool)
      requires pool.Valid()
      ensures Valid() && this.pool == pool && Intervals() == []
    {
      this.pool := pool;
      root, nodeCount, shape := NONE, 0, Leaf;
    }

    /** In a valid tree no stored height comes near the limit of its signed byte. */
    lemma {:induction false} HeightFits()
      requires Valid()
      ensures Height(shape) <= 15 && forall i :: i in Ids(shape) ==> 1 <= pool.nodes[i].height <= 15
    {
      HeightBound(shape);
      StoredHeights(pool.nodes, shape);
    }

    /** The pool's slots are split between this tree, one per interval, and the others. */
    lemma {:induction false} SlotCount()
      requires Valid()
      ensures |pool.used| == |pool.used - Ids(shape)| + |Intervals()| && nodeCount == |Intervals()|
    {
      SizeIsIds(shape);
      assert pool.used == (pool.used - Ids(shape)) + Ids(shape);
    }

    /** Links a fresh slot into the tree unless its interval overlaps. */
    method Attach(node: nat, ghost iv: Interval) returns (ok: bool)
      requires Valid() && pool.initialized && node in pool.used && node !in Ids(shape)
      requires Represents(pool.nodes, Node(Leaf, node, iv, Leaf)) && iv.start < iv.end <= U32_MAX
      modifies this, pool`nodes
      ensures Valid()
      ensures ok <==> Avoids(old(Intervals()), iv)
      ensures ok ==> Intervals() == Place(old(Intervals()), iv) && Ids(shape) == old(Ids(shape)) + {node}
      ensures !ok ==> shape == old(shape) && pool.nodes == old(pool.nodes)
      ensures SameOutside(old(pool.nodes), pool.nodes, old(Ids(shape)) + {node})
    {
      HeightFits();
      InsertSound(shape, node, iv);
      root, ok := pool.NodeInsert(root, node, shape, iv);
      FreeChainFrame(old(pool.nodes), pool.nodes, pool.freeNodes, pool.free);
      if !ok {
        return;
      }
      shape := IntervalTree.Insert(shape, node, iv).tree;
      nodeCount := nodeCount + 1;
    }

    /** Links a fresh slot into the tree, or frees it again. */
    method AttachOrFree(node: nat, ghost iv: Interval) returns (ok: bool)
      requires Valid() && pool.initialized && node in pool.used && node !in Ids(shape)
      requires Represents(pool.nodes, Node(Leaf, node, iv, Leaf)) && iv.start < iv.end <= U32_MAX
      modifies this, pool
      ensures Valid()
      ensures ok <==> Avoids(old(Intervals()), iv)
      ensures Intervals() == if ok then Place(old(Intervals()), iv) else old(Intervals())
      ensures OthersKept(old(pool.nodes), pool.nodes, old(pool.used - Ids(shape)) - {node}, pool.used - Ids(shape))
    {
      ok := Attach(node, iv);
      if !ok {
        ghost var linked := pool.nodes;
        pool.GiveBack(node);
        RepresentsFrame(linked, pool.nodes, shape);
      }
    }

    /** Adds a range.  It is taken exactly when it is non-empty, overlaps nothing and the
        pool still has a slot; slots of other trees are not written. */
    method Insert(start: nat, end: nat, flags: nat) returns (ok: bool)
      requires Valid() && start <= U32_MAX && end <= U32_MAX
      modifies this, pool
      ensures Valid()
      ensures ok <==> start < end && |old(pool.used)| < MAX_NODES &&
                      Avoids(old(Intervals()), Interval(start, end, flags))
      ensures Intervals() == if ok then Place(old(Intervals()), Interval(start, end, flags)) else old(Intervals())
      ensures OthersKept(old(pool.nodes), pool.nodes, old(pool.used - Ids(shape)), pool.used - Ids(shape))
    {
      if end <= start {
        return false;
      }
      var node := pool.NodeAlloc(start, end, flags);
      RepresentsFrame(old(pool.nodes), pool.nodes, shape);
      if node == NONE {
        return false;
      }
      ghost var mid := pool.nodes;
      ghost var taken := pool.used;
      ghost var ids := Ids(shape);
      ok := AttachOrFree(node, Interval(start, end, flags));
      OthersKeptFresh(old(pool.nodes), mid, pool.nodes, old(pool.used), taken, ids, node, pool.used - Ids(shape));
    }

    /** Removes a range.  It succeeds exactly when that very range is in the tree. */
    method Remove(start: nat, end: nat) returns (removed: bool)
      requires Valid()
      modifies this, pool
      ensures Valid()
      ensures removed <==> Holds(old(Intervals()), start, end)
      ensures Intervals() == Take(old(Intervals()), start, end)
      ensures OthersKept(old(pool.nodes), pool.nodes, old(pool.used - Ids(shape)), pool.used - Ids(shape))
    {
      HeightFits();
      RemoveSound(shape, start, end);
      if root == NONE {
        // An empty tree may sit on a pool that has never been chained.
        return false;
      }
      root, removed := pool.Detach(root, start, end, shape);
      shape := After(shape, start, end);
      if removed {
        nodeCount := nodeCount - 1;
      }
    }

    /** The interval that holds an address. */
    method Find(address: nat) returns (found: bool, start: nat, end: nat, flags: nat)
      requires Valid()
      ensures found <==> exists x :: x in Intervals() && x.start <= address < x.end
      ensures found ==> Interval(start, end, flags) in Intervals() && start <= address < end
    {
      var node := root;
      ghost var t := shape;
      start, end, flags := 0, 0, 0;
      while node != NONE
        invariant Represents(pool.nodes, t) && node == Root(t) && Sorted(InOrder(t))
        invariant forall x :: x in InOrder(t) ==> x in Intervals()
        invariant forall x :: x in Intervals() && x.start <= address < x.end ==> x in InOrder(t)
        decreases t
      {
        SortedParts(InOrder(t.left), t.iv, InOrder(t.right));
        assert t.iv in InOrder(t);
        if address < pool.nodes[node].start {
          node, t := pool.nodes[node].left, t.left;
        } else if address >= pool.nodes[node].end {
          node, t := pool.nodes[node].right, t.right;
        } else {
          return true, pool.nodes[node].start, pool.nodes[node].end, pool.nodes[node].flags;
        }
      }
      found := false;
    }

    /** The lowest interval. */
    method First() returns (found: bool, start: nat, end: nat, flags: nat)
      requires Valid()
      ensures found <==> Intervals() != []
      ensures found ==> Interval(start, end, flags) == Intervals()[0]
    {
      start, end, flags := 0, 0, 0;
      var node := pool.NodeLeftmost(root, shape);
      if shape.Node? { LeftmostIsFirst(shape); }
      if node == NONE {
        return false, 0, 0, 0;
      }
      return true, pool.nodes[node].start, pool.nodes[node].end, pool.nodes[node].flags;
    }

    /** Walks a subtree in order, advancing the search at each interval until it is settled. */
    method GapSearchInOrder(node: int, s: GapState, ghost t: Tree) returns (r: GapState)
      requires Represents(pool.nodes, t) && node == Root(t)
      ensures r == Scan(s, InOrder(t))
      decreases t
    {
      if node == NONE || s.found {
        return s;
      }
      ScanConcat(s, InOrder(t.left) + [t.iv], InOrder(t.right));
      ScanConcat(s, InOrder(t.left), [t.iv]);
      r := GapSearchInOrder(pool.nodes[node].left, s, t.left);
      if r.found {
        return;
      }
      var n := pool.nodes[node];
      r := Visit(r, Interval(n.start, n.end, n.flags));
      if r.found {
        return;
      }
      r := GapSearchInOrder(n.right, r, t.right);
    }

    /** The lowest aligned address in the window whose range meets no interval.  Requests that
        are not sound are turned down, and the answer is right except in the trap. */
    method FindGap(minAddr: nat, maxAddr: nat, length: nat, alignment: nat) returns (found: bool, start: nat)
      requires Valid() && maxAddr <= U32_MAX && alignment <= U32_MAX
      ensures (if found then Gap(start) else NoGap) ==
          GapSearch.FindGap(Intervals(), minAddr, maxAddr, length, alignment)
      ensures !Request(minAddr, maxAddr, length, alignment) ==> !found
      ensures Request(minAddr, maxAddr, length, alignment) &&
              !Trap(Intervals(), minAddr, maxAddr, length, alignment) ==>
                Lowest(Intervals(), minAddr, maxAddr, length, alignment, if found then Gap(start) else NoGap)
    {
      start := 0;
      if length == 0 || minAddr >= maxAddr || alignment == 0 {
        return false, 0;
      }
      PowerOfTwoTest(alignment);
      if Request(minAddr, maxAddr, length, alignment) && !Trap(Intervals(), minAddr, maxAddr, length, alignment) {
        FindGapLowest(Intervals(), minAddr, maxAddr, length, alignment);
      }
      if And(alignment, alignment - 1) != 0 {
        return false, 0;
      }
      var first := AlignUp(minAddr, alignment);
      if first < minAddr || first >= maxAddr {
        return false, 0;
      }
      var s := GapSearchInOrder(root, Start(minAddr, maxAddr, length, alignment), shape);
      ScanKeeps(Start(minAddr, maxAddr, length, alignment), Intervals());
      if !s.found && AddFitsLimit(s.cursor, length, maxAddr) {
        s := s.(result := s.cursor, found := true);
      }
      return s.found, s.result;
    }

    /** Gives every slot of the tree back to the pool. */
    method Clear()
      requires Valid()
      modifies this, pool
      ensures Valid() && Intervals() == [] && pool.used == old(pool.used - Ids(shape))
      ensures OthersKept(old(pool.nodes), pool.nodes, old(pool.used - Ids(shape)), pool.used - Ids(shape))
    {
      if root != NONE { pool.ReleaseSubtree(root, shape); }
      root, nodeCount, shape := NONE, 0, Leaf;
    }
  }

  /** The slots of the other trees are the same set and were not written. */
  ghost predicate OthersKept(a: seq<VmaNode>, b: seq<VmaNode>, was: set<nat>, now: set<nat>) {
    was == now && |a| == |b| && forall i :: i in was && i < |a| ==> a[i] == b[i]
  }

  /** Taking a fresh slot first does not change what the other trees keep. */
  lemma {:induction false} OthersKeptFresh(a: seq<VmaNode>, b: seq<VmaNode>, c: seq<VmaNode>, used: set<nat>,
                                           taken: set<nat>, ids: set<nat>, node: nat, now: set<nat>)
    requires taken == used + {node} && node !in used && |a| == |b|
    requires forall i :: i in used ==> i < |a| && a[i] == b[i]
    requires OthersKept(b, c, taken - ids - {node}, now)
    ensures OthersKept(a, c, used - ids, now)
  {
    assert taken - ids - {node} == used - ids;
  }

  /** What `OthersKept` gives to a second tree on the same pool: it keeps its shape. */
  lemma {:induction false} SiblingKept(a: seq<VmaNode>, b: seq<VmaNode>, was: set<nat>, now: set<nat>, t: Tree)
    requires OthersKept(a, b, was, now) && Represents(a, t) && Ids(t) <= was
    ensures Represents(b, t) && Ids(t) <= now
  {
    RepresentsFrame(a, b, t);
  }

  // ------------------------------------------------------------------------------------
  // All trees of one pool
  // ------------------------------------------------------------------------------------

  /** The trees share the pool and no slot: the kernel's and every process's trees. */
  ghost predicate Forest(trees: seq<VmaTree>, pool: NodePool)
    reads trees, pool
  {
    (forall i :: 0 <= i < |trees| ==> trees[i].pool == pool && trees[i].Valid()) &&
    (forall i, j :: 0 <= i < j < |trees| ==> trees[i] != trees[j] && Ids(trees[i].shape) !! Ids(trees[j].shape))
  }

  datatype Demand = Adds(start: nat, end: nat, flags: nat) | Drops(start: nat, end: nat) | Clears

  /** The intervals of a tree after a request that was served or refused. */
  function Served(s: seq<Interval>, q: Demand, ok: bool): seq<Interval> {
    match q
    case Adds(start, end, flags) => if ok then Place(s, Interval(start, end, flags)) else s
    case Drops(start, end) => Take(s, start, end)
    case Clears => []
  }

  /** When a tree serves a request: an addition that is a free range while the pool has a node, a
      removal of a range that is there, and any clearing. */
  ghost predicate Serves(s: seq<Interval>, q: Demand, used: set<nat>) {
    match q
    case Adds(start, end, flags) => start < end && |used| < MAX_NODES && Avoids(s, Interval(start, end, flags))
    case Drops(start, end) => Holds(s, start, end)
    case Clears => true
  }

  method ServeOne(tree: VmaTree, q: Demand) returns (ok: bool)
    requires tree.Valid() && (q.Adds? ==> q.start <= U32_MAX && q.end <= U32_MAX)
    modifies tree, tree.pool
    ensures tree.Valid() && tree.Intervals() == Served(old(tree.Intervals()), q, ok)
    ensures ok <==> Serves(old(tree.Intervals()), q, old(tree.pool.used))
    ensures OthersKept(old(tree.pool.nodes), tree.pool.nodes, old(tree.pool.used - Ids(tree.shape)),
                       tree.pool.used - Ids(tree.shape))
  {
    match q {
      case Adds(start, end, flags) => ok := tree.Insert(start, end, flags);
      case Drops(start, end) => ok := tree.Remove(start, end);
      case Clears => tree.Clear(); ok := true;
    }
  }

  /** A request to one tree leaves every other tree of the pool valid, with the same intervals,
      and the trees still share no slot. */
  method Serve(trees: seq<VmaTree>, pool: NodePool, k: nat, q: Demand) returns (ok: bool)
    requires Forest(trees, pool) && k < |trees| && (q.Adds? ==> q.start <= U32_MAX && q.end <= U32_MAX)
    modifies trees[k], pool
    ensures Forest(trees, pool) && (ok <==> Serves(old(trees[k].Intervals()), q, old(pool.used)))
    ensures forall i :: 0 <= i < |trees| ==>
              trees[i].Intervals() ==
                if i == k then Served(old(trees[k].Intervals()), q, ok) else old(trees[i].Intervals())
  {
    ok := ServeOne(trees[k], q);
    forall i | 0 <= i < |trees| && i != k
      ensures trees[i].shape == old(trees[i].shape) && trees[i].Valid() && Ids(trees[i].shape) !! Ids(trees[k].shape)
    {
      assert trees[i] != trees[k];
      SiblingKept(old(pool.nodes), pool.nodes, old(pool.used - Ids(trees[k].shape)), pool.used - Ids(trees[k].shape),
                  trees[i].shape);
    }
  }

  lemma {:induction false} StoredHeights(nodes: seq<VmaNode>, t: Tree)
    requires Represents(nodes, t)
    ensures forall i :: i in Ids(t) ==> i < |nodes| && 1 <= nodes[i].height <= Height(t)
  {
    if t.Node? {
      StoredHeights(nodes, t.left);
      StoredHeights(nodes, t.right);
    }
  }
}
