/** The shared pool of tree nodes and the operations that rewrite their links.

    A slot index plays the part of a node pointer and `NONE` the null pointer.  Every
    method takes, as ghost arguments, the `Tree` its pointer stands for, and its contract
    says that the links afterwards form exactly the tree that the corresponding function of
    `IntervalTree` computes, that no slot outside that tree was written, and which slots
    were taken from or given back to the free list. */
module VmaPool {
  import opened IntervalTree

  const NONE: int := -1
  const MAX_NODES: nat := 2048

  datatype VmaNode = VmaNode(start: nat, end: nat, flags: nat, height: int, left: int, right: int)

  /** The value kept by a cast to a signed byte. */
  function Int8(x: int): int { (x + 128) % 256 - 128 }

  function Root(t: Tree): int { if t.Leaf? then NONE else t.id }

  /** The slot holds this interval and points at these children. */
  ghost predicate Points(n: VmaNode, iv: Interval, left: int, right: int) {
    n.start == iv.start && n.end == iv.end && n.flags == iv.flags && n.left == left && n.right == right
  }

  /** The links and stored heights of the pool form the tree `t`. */
  ghost predicate Represents(nodes: seq<VmaNode>, t: Tree) {
    t.Leaf? ||
    (t.id < |nodes| && Points(nodes[t.id], t.iv, Root(t.left), Root(t.right)) &&
     nodes[t.id].height == Height(t) && Represents(nodes, t.left) && Represents(nodes, t.right))
  }

  /** As `Represents`, except that the top node's stored height may be stale. */
  ghost predicate Links(nodes: seq<VmaNode>, t: Tree) {
    t.Node? && t.id < |nodes| && Points(nodes[t.id], t.iv, Root(t.left), Root(t.right)) &&
    Represents(nodes, t.left) && Represents(nodes, t.right)
  }

  /** The free list, chained through `left`. */
  ghost predicate FreeChain(nodes: seq<VmaNode>, head: int, free: seq<nat>)
    decreases |free|
  {
    if free == [] then head == NONE
    else head == free[0] && free[0] < |nodes| && FreeChain(nodes, nodes[free[0]].left, free[1..])
  }

  ghost predicate NoRepeats(s: seq<nat>) {
    forall i, j :: 0 <= i < j < |s| ==> s[i] != s[j]
  }

  /** Every slot is either on the free list, once, or used. */
  ghost predicate Split(free: seq<nat>, used: set<nat>) {
    NoRepeats(free) &&
    (forall i :: i in used ==> i < MAX_NODES) && (forall i :: i in free ==> i < MAX_NODES) &&
    (forall i :: 0 <= i < MAX_NODES ==> (i in free <==> i !in used))
  }

  lemma {:induction false} SplitPop(free: seq<nat>, used: set<nat>)
    requires Split(free, used) && free != []
    ensures Split(free[1..], used + {free[0]})
  {
    assert free == [free[0]] + free[1..];
    forall i | i in free[1..] ensures i in free && i != free[0] {
      var k :| 0 <= k < |free[1..]| && free[1..][k] == i;
      assert free[k + 1] == i;
    }
  }

  lemma {:induction false} SplitPush(free: seq<nat>, used: set<nat>, node: nat)
    requires Split(free, used) && node in used
    ensures Split([node] + free, used - {node})
  {
  }

  /** Outside `ids` the two pools are the same. */
  ghost predicate SameOutside(a: seq<VmaNode>, b: seq<VmaNode>, ids: set<nat>) {
    |a| == |b| && forall i :: 0 <= i < |a| && i !in ids ==> a[i] == b[i]
  }

  lemma {:induction false} RepresentsFrame(a: seq<VmaNode>, b: seq<VmaNode>, t: Tree)
    requires |a| == |b| && Represents(a, t) && forall i :: i in Ids(t) && i < |a| ==> a[i] == b[i]
    ensures Represents(b, t)
  {
    if t.Node? {
      assert t.id in Ids(t);
      RepresentsFrame(a, b, t.left);
      RepresentsFrame(a, b, t.right);
    }
  }

  lemma {:induction false} FreeChainFrame(a: seq<VmaNode>, b: seq<VmaNode>, head: int, free: seq<nat>)
    requires |a| == |b| && FreeChain(a, head, free)
    requires forall i :: i in free && i < |a| ==> a[i] == b[i]
    ensures FreeChain(b, head, free)
    decreases |free|
  {
    if free != [] {
      assert free[0] in free;
      FreeChainFrame(a, b, a[free[0]].left, free[1..]);
    }
  }

  lemma {:induction false} RotationHeight(t: Tree)
    requires t.Node?
    ensures t.left.Node? ==> Height(RotateRight(t)) <= Height(t) + 1
    ensures t.right.Node? ==> Height(RotateLeft(t)) <= Height(t) + 1
  {
  }

  /** What one level of insertion leaves for `RebalanceAt` to repair. */
  lemma {:induction false} InsertLevel(t: Tree, id: nat, iv: Interval)
    requires t.Node? && Distinct(t) && Avl(t) && Height(t) < 90 && id !in Ids(t)
    ensures var u := t.(left := Insert(t.left, id, iv).tree);
            Distinct(u) && Height(u) < 100 && Ids(u) <= Ids(t) + {id} && t.id !in Ids(u.left) &&
            (!Insert(t.left, id, iv).ok ==> u == t)
    ensures var u := t.(right := Insert(t.right, id, iv).tree);
            Distinct(u) && Height(u) < 100 && Ids(u) <= Ids(t) + {id} && t.id !in Ids(u.right) &&
            (!Insert(t.right, id, iv).ok ==> u == t)
  {
    InsertIds(t.left, id, iv);
    InsertBalanced(t.left, id, iv);
    InsertIds(t.right, id, iv);
    InsertBalanced(t.right, id, iv);
  }

  /** The tree that an attempted removal leaves, found or not. */
  function After(t: Tree, start: nat, end: nat): Tree {
    match Remove(t, start, end)
    case Missing => t
    case Removed(u, _) => u
  }

  /** The free list that an attempted removal leaves. */
  function FreeAfter(t: Tree, start: nat, end: nat, free: seq<nat>): seq<nat> {
    match Remove(t, start, end)
    case Missing => free
    case Removed(_, f) => [f] + free
  }

  lemma {:induction false} AfterFacts(t: Tree, start: nat, end: nat)
    requires Distinct(t) && Avl(t)
    ensures Distinct(After(t, start, end)) && Avl(After(t, start, end)) && Ids(After(t, start, end)) <= Ids(t)
    ensures Height(t) - 1 <= Height(After(t, start, end)) <= Height(t)
    ensures Remove(t, start, end).Removed? ==>
              Remove(t, start, end).freed in Ids(t) && Remove(t, start, end).freed !in Ids(After(t, start, end))
  {
    if Remove(t, start, end).Removed? {
      RemoveIds(t, start, end);
      RemoveBalanced(t, start, end);
    }
  }

  lemma {:induction false} AfterSorted(t: Tree, start: nat, end: nat)
    requires Sorted(InOrder(t))
    ensures Sorted(InOrder(After(t, start, end)))
  {
    RemoveCorrect(t, start, end);
    TakeSorted(InOrder(t), start, end);
  }

  /** The state of the pool between calls on a tree `t`: what the links form, and that the
      free slots are chained and not part of the tree. */
  ghost predicate Owns(nodes: seq<VmaNode>, freeNodes: int, free: seq<nat>, t: Tree) {
    |nodes| == MAX_NODES && Represents(nodes, t) && Distinct(t) && Avl(t) && Height(t) < 90 &&
    Sorted(InOrder(t)) && FreeChain(nodes, freeNodes, free) && forall i :: i in free ==> i !in Ids(t)
  }

  /** The same while the top node's height, or its interval, is still to be settled. */
  ghost predicate Loose(nodes: seq<VmaNode>, freeNodes: int, free: seq<nat>, t: Tree) {
    |nodes| == MAX_NODES && Links(nodes, t) && Distinct(t) && Avl(t.left) && Avl(t.right) && Height(t) < 90 &&
    Sorted(InOrder(t.left)) && Sorted(InOrder(t.right)) &&
    FreeChain(nodes, freeNodes, free) && forall i :: i in free ==> i !in Ids(t)
  }

  lemma {:induction false} OwnsIsLoose(nodes: seq<VmaNode>, freeNodes: int, free: seq<nat>, t: Tree)
    requires Owns(nodes, freeNodes, free, t) && t.Node?
    ensures Loose(nodes, freeNodes, free, t)
  {
    SortedParts(InOrder(t.left), t.iv, InOrder(t.right));
  }

  /** The node that one level of a removal hands to `RebalanceAt`. */
  function Unsettled(t: Tree, start: nat, end: nat): Tree
    requires t.Node?
  {
    if start < t.iv.start then t.(left := After(t.left, start, end))
    else if start > t.iv.start then t.(right := After(t.right, start, end))
    else if t.left.Leaf? || t.right.Leaf? then t
    else
      var s := Leftmost(t.right).iv;
      t.(iv := s, right := After(t.right, s.start, s.end))
  }

  lemma {:induction false} SuccessorIsThere(t: Tree)
    requires t.Node? && Sorted(InOrder(t))
    ensures Remove(t, Leftmost(t).iv.start, Leftmost(t).iv.end).Removed?
  {
    LeftmostIsFirst(t);
    assert InOrder(t)[0] in InOrder(t);
    RemoveCorrect(t, Leftmost(t).iv.start, Leftmost(t).iv.end);
  }

  lemma {:induction false} SettlesToAfter(t: Tree, start: nat, end: nat)
    requires t.Node? && Avl(t) && Sorted(InOrder(t))
    requires start == t.iv.start ==> end == t.iv.end && t.left.Node? && t.right.Node?
    ensures Rebalance(Unsettled(t, start, end)) == After(t, start, end)
    ensures Remove(t, start, end).Removed? ==>
              Remove(t, start, end) == Removed(After(t, start, end),
                if start < t.iv.start then Remove(t.left, start, end).freed
                else if start > t.iv.start then Remove(t.right, start, end).freed
                else Remove(t.right, Leftmost(t.right).iv.start, Leftmost(t.right).iv.end).freed)
  {
    RebalanceRepairs(t);
    if start == t.iv.start {
      SortedParts(InOrder(t.left), t.iv, InOrder(t.right));
      SuccessorIsThere(t.right);
    }
  }

  /** All slots are in use exactly when there are as many as the pool holds. */
  lemma {:induction false} PoolFull(used: set<nat>)
    requires forall i :: i in used ==> i < MAX_NODES
    ensures (forall i :: 0 <= i < MAX_NODES ==> i in used) <==> |used| >= MAX_NODES
  {
    MissesOne(used, MAX_NODES);
    SubsetOfRange(used, MAX_NODES);
  }

  /** A set of fewer than `n` numbers below `n` misses one, and a set of `n` misses none. */
  lemma {:induction false} MissesOne(s: set<nat>, n: nat)
    requires forall i :: i in s ==> i < n
    ensures |s| < n <==> exists i :: 0 <= i < n && i !in s
  {
    if n > 0 {
      var r := s - {n - 1};
      MissesOne(r, n - 1);
      SubsetOfRange(r, n - 1);
      if n - 1 in s { assert s == r + {n - 1}; } else { assert s == r; }
    }
  }

  class NodePool {
    var nodes: seq<VmaNode>
    var freeNodes: int
    var initialized: bool
    /** The slots on the free list, first one first. */
    ghost var free: seq<nat>
    /** The slots that some tree holds. */
    ghost var used: set<nat>

    /** Every slot is either free or used, and not both. */
    ghost predicate Valid()
      reads this
    {
      |nodes| == MAX_NODES &&
      if initialized then FreeChain(nodes, freeNodes, free) && Split(free, used) else used == {}
    }

    constructor ()
      ensures Valid() && used == {}
    {
      nodes := seq(MAX_NODES, _ => VmaNode(0, 0, 0, 0, 0, 0));
      freeNodes, initialized := NONE, false;
      free, used := [], {};
    }

    /** Chains all slots, once. */
    method Init()
      requires Valid()
      modifies this
      ensures Valid() && initialized && used == old(used)
      ensures old(initialized) ==> nodes == old(nodes) && free == old(free)
      ensures SameOutside(old(nodes), nodes, set i | i in free)
    {
      if initialized { return; }
      freeNodes, free := NONE, [];
      var i := 0;
      while i < MAX_NODES
        invariant 0 <= i <= MAX_NODES == |nodes| && used == {}
        invariant FreeChain(nodes, freeNodes, free) && |free| == i
        invariant forall k :: 0 <= k < i ==> free[k] == i - 1 - k
        invariant forall k :: i <= k < MAX_NODES ==> nodes[k] == old(nodes)[k]
      {
        ghost var before := nodes;
        nodes := nodes[i := nodes[i].(left := freeNodes)];
        FreeChainFrame(before, nodes, freeNodes, free);
        freeNodes := i;
        free := [i] + free;
        i := i + 1;
      }
      initialized := true;
      forall k | 0 <= k < MAX_NODES ensures k in free { assert free[MAX_NODES - 1 - k] == k; }
    }

    /** A slot for a new interval, or `NONE` exactly when all slots are in use. */
    method NodeAlloc(start: nat, end: nat, flags: nat) returns (node: int)
      requires Valid()
      modifies this
      ensures Valid() && initialized
      ensures node == NONE <==> |old(used)| >= MAX_NODES
      ensures node == NONE ==> used == old(used)
      ensures node != NONE ==> 0 <= node < MAX_NODES && node !in old(used) && used == old(used) + {node}
      ensures node != NONE ==> Represents(nodes, Node(Leaf, node, Interval(start, end, flags), Leaf))
      ensures forall i :: i in old(used) ==> nodes[i] == old(nodes)[i]
    {
      Init();
      PoolFull(used);
      if freeNodes == NONE {
        return NONE;
      }
      node := PopFree(start, end, flags);
    }

    /** Takes the head of the free list and makes it a node without children. */
    method PopFree(start: nat, end: nat, flags: nat) returns (node: nat)
      requires Valid() && initialized && freeNodes != NONE
      modifies this
      ensures Valid() && initialized
      ensures node < MAX_NODES && node !in old(used) && used == old(used) + {node}
      ensures Represents(nodes, Node(Leaf, node, Interval(start, end, flags), Leaf))
      ensures SameOutside(old(nodes), nodes, {node})
    {
      node := freeNodes;
      assert node in free;
      freeNodes := nodes[freeNodes].left;
      ghost var before := nodes;
      nodes := nodes[node := VmaNode(start, end, flags, 1, NONE, NONE)];
      FreeChainFrame(before, nodes, freeNodes, free[1..]);
      SplitPop(free, used);
      free := free[1..];
      used := used + {node};
      assert Height(Node(Leaf, node, Interval(start, end, flags), Leaf)) == 1 && Represents(nodes, Leaf);
    }

    /** Puts a slot that no tree holds any more at the head of the free list. */
    method NodeFree(node: nat)
      requires initialized && |nodes| == MAX_NODES && node < MAX_NODES
      requires FreeChain(nodes, freeNodes, free) && node !in free
      modifies this`nodes, this`freeNodes, this`free
      ensures free == [node] + old(free) && FreeChain(nodes, freeNodes, free)
      ensures |nodes| == MAX_NODES && SameOutside(old(nodes), nodes, {node})
    {
      nodes := nodes[node := nodes[node].(left := freeNodes, right := NONE)];
      FreeChainFrame(old(nodes), nodes, freeNodes, free);
      freeNodes := node;
      free := [node] + free;
    }

    /** Frees a slot that the caller still counts as used. */
    method GiveBack(node: nat)
      requires Valid() && initialized && node in used
      modifies this
      ensures Valid() && initialized && used == old(used) - {node}
      ensures SameOutside(old(nodes), nodes, {node})
    {
      SplitPush(free, used, node);
      NodeFree(node);
      used := used - {node};
    }

    /** Frees a whole subtree, children before parents. */
    method ReleaseSubtree(node: int, ghost t: Tree)
      requires Valid() && initialized && Represents(nodes, t) && node == Root(t) && Distinct(t) && Ids(t) <= used
      modifies this
      ensures Valid() && initialized && used == old(used) - Ids(t)
      ensures SameOutside(old(nodes), nodes, Ids(t))
      decreases t
    {
      if node == NONE {
        return;
      }
      var right := nodes[node].right;
      ReleaseSubtree(nodes[node].left, t.left);
      RepresentsFrame(old(nodes), nodes, t.right);
      ReleaseSubtree(right, t.right);
      GiveBack(node);
    }

    function NodeHeight(node: int): int
      requires node == NONE || 0 <= node < |nodes|
      reads this`nodes
    {
      if node == NONE then 0 else nodes[node].height
    }

    /** Stores the node's height in its signed byte; nothing is lost below 128 levels. */
    method RefreshHeight(node: nat, ghost t: Tree)
      requires Links(nodes, t) && node == t.id && Distinct(t) && Height(t) < 128
      modifies this`nodes
      ensures Represents(nodes, t) && SameOutside(old(nodes), nodes, {t.id})
    {
      var l, r := NodeHeight(nodes[node].left), NodeHeight(nodes[node].right);
      nodes := nodes[node := nodes[node].(height := Int8(1 + if l > r then l else r))];
      RepresentsFrame(old(nodes), nodes, t.left);
      RepresentsFrame(old(nodes), nodes, t.right);
    }

    /** `node->left = child`. */
    method LinkLeft(node: nat, child: int, ghost t: Tree, ghost l: Tree)
      requires t.Node? && node == t.id < |nodes| && Points(nodes[node], t.iv, nodes[node].left, Root(t.right))
      requires child == Root(l) && Represents(nodes, l) && Represents(nodes, t.right)
      requires t.id !in Ids(l) && t.id !in Ids(t.right)
      modifies this`nodes
      ensures Links(nodes, t.(left := l)) && nodes[node].height == old(nodes)[node].height
      ensures SameOutside(old(nodes), nodes, {t.id})
    {
      nodes := nodes[node := nodes[node].(left := child)];
      RepresentsFrame(old(nodes), nodes, l);
      RepresentsFrame(old(nodes), nodes, t.right);
    }

    /** `node->right = child`. */
    method LinkRight(node: nat, child: int, ghost t: Tree, ghost r: Tree)
      requires t.Node? && node == t.id < |nodes| && Points(nodes[node], t.iv, Root(t.left), nodes[node].right)
      requires child == Root(r) && Represents(nodes, r) && Represents(nodes, t.left)
      requires t.id !in Ids(r) && t.id !in Ids(t.left)
      modifies this`nodes
      ensures Links(nodes, t.(right := r)) && nodes[node].height == old(nodes)[node].height
      ensures SameOutside(old(nodes), nodes, {t.id})
    {
      nodes := nodes[node := nodes[node].(right := child)];
      RepresentsFrame(old(nodes), nodes, r);
      RepresentsFrame(old(nodes), nodes, t.left);
    }

    method RotateRightAt(node: nat, ghost t: Tree) returns (pivot: nat)
      requires Links(nodes, t) && node == t.id && Distinct(t) && t.left.Node? && Height(t) < 120
      modifies this`nodes
      ensures pivot == Root(RotateRight(t)) && Represents(nodes, RotateRight(t))
      ensures SameOutside(old(nodes), nodes, {t.id, t.left.id})
    {
      ghost var l := t.left;
      ghost var hi := t.(left := l.right);
      RotateRightKeeps(t);
      pivot := nodes[node].left;
      assert Represents(nodes, l.left) && Represents(nodes, l.right);
      LinkLeft(node, nodes[pivot].right, t, l.right);
      // The kernel refreshes both heights at the end; the node's is final once it is linked.
      RepresentsFrame(old(nodes), nodes, l.left);
      ghost var linked := nodes;
      RefreshHeight(node, hi);
      RepresentsFrame(linked, nodes, l.left);
      LinkRight(pivot, node, l, hi);
      RefreshHeight(pivot, RotateRight(t));
    }

    method RotateLeftAt(node: nat, ghost t: Tree) returns (pivot: nat)
      requires Links(nodes, t) && node == t.id && Distinct(t) && t.right.Node? && Height(t) < 120
      modifies this`nodes
      ensures pivot == Root(RotateLeft(t)) && Represents(nodes, RotateLeft(t))
      ensures SameOutside(old(nodes), nodes, {t.id, t.right.id})
    {
      ghost var r := t.right;
      ghost var lo := t.(right := r.left);
      RotateLeftKeeps(t);
      pivot := nodes[node].right;
      assert Represents(nodes, r.left) && Represents(nodes, r.right);
      LinkRight(node, nodes[pivot].left, t, r.left);
      RepresentsFrame(old(nodes), nodes, r.right);
      ghost var linked := nodes;
      RefreshHeight(node, lo);
      RepresentsFrame(linked, nodes, r.right);
      LinkLeft(pivot, node, r, lo);
      RefreshHeight(pivot, RotateLeft(t));
    }

    /** Lines up a left child that leans right before the node is rotated right. */
    method StraightenLeft(node: nat, ghost t: Tree) returns (ghost u: Tree)
      requires Represents(nodes, t) && t.Node? && node == t.id && Distinct(t) && t.left.Node? && Height(t) < 100
      modifies this`nodes
      ensures u == (if Factor(t.left) < 0 then t.(left := RotateLeft(t.left)) else t)
      ensures Links(nodes, u) && SameOutside(old(nodes), nodes, {t.id} + Ids(t.left))
      ensures Distinct(u) && u.left.Node? && Ids(u.left) == Ids(t.left) && Height(u) < 120
    {
      var l := nodes[node].left;
      assert Represents(nodes, t.left.left) && Represents(nodes, t.left.right);
      u := t;
      if NodeHeight(nodes[l].left) - NodeHeight(nodes[l].right) < 0 {
        var p := RotateLeftAt(l, t.left);
        RotateLeftKeeps(t.left);
        RotationHeight(t.left);
        u := t.(left := RotateLeft(t.left));
        RepresentsFrame(old(nodes), nodes, t.right);
        LinkLeft(node, p, t, u.left);
      }
    }

    /** Lines up a right child that leans left before the node is rotated left. */
    method StraightenRight(node: nat, ghost t: Tree) returns (ghost u: Tree)
      requires Represents(nodes, t) && t.Node? && node == t.id && Distinct(t) && t.right.Node? && Height(t) < 100
      modifies this`nodes
      ensures u == (if Factor(t.right) > 0 then t.(right := RotateRight(t.right)) else t)
      ensures Links(nodes, u) && SameOutside(old(nodes), nodes, {t.id} + Ids(t.right))
      ensures Distinct(u) && u.right.Node? && Ids(u.right) == Ids(t.right) && Height(u) < 120
    {
      var r := nodes[node].right;
      assert Represents(nodes, t.right.left) && Represents(nodes, t.right.right);
      u := t;
      if NodeHeight(nodes[r].left) - NodeHeight(nodes[r].right) > 0 {
        var p := RotateRightAt(r, t.right);
        RotateRightKeeps(t.right);
        RotationHeight(t.right);
        u := t.(right := RotateRight(t.right));
        RepresentsFrame(old(nodes), nodes, t.left);
        LinkRight(node, p, t, u.right);
      }
    }

    /** Recomputes the node's height and restores the balance with at most two rotations. */
    method RebalanceAt(node: nat, ghost t: Tree) returns (top: nat)
      requires Links(nodes, t) && node == t.id && Distinct(t) && Height(t) < 100
      modifies this`nodes
      ensures top == Root(Rebalance(t)) && Represents(nodes, Rebalance(t))
      ensures SameOutside(old(nodes), nodes, Ids(t))
    {
      RefreshHeight(node, t);
      var balance := NodeHeight(nodes[node].left) - NodeHeight(nodes[node].right);
      if balance > 1 {
        ghost var u := StraightenLeft(node, t);
        top := RotateRightAt(node, u);
      } else if balance < -1 {
        ghost var u := StraightenRight(node, t);
        top := RotateLeftAt(node, u);
      } else {
        top := node;
      }
    }

    /** Descends to the place of the interval in `node` and links it in, unless it overlaps. */
    method NodeInsert(root: int, node: nat, ghost t: Tree, ghost iv: Interval) returns (top: int, inserted: bool)
      requires Represents(nodes, t) && root == Root(t) && Distinct(t) && Avl(t) && Height(t) < 90
      requires Represents(nodes, Node(Leaf, node, iv, Leaf)) && node !in Ids(t)
      modifies this`nodes
      ensures inserted == Insert(t, node, iv).ok
      ensures top == Root(Insert(t, node, iv).tree) && Represents(nodes, Insert(t, node, iv).tree)
      ensures SameOutside(old(nodes), nodes, Ids(t) + {node})
      ensures !inserted ==> nodes == old(nodes)
      decreases t, 1
    {
      if root == NONE {
        return node, true;
      }
      InsertLevel(t, node, iv);
      ghost var u;
      if nodes[node].end <= nodes[root].start {
        inserted := InsertLeft(root, node, t, iv);
        u := t.(left := Insert(t.left, node, iv).tree);
      } else if nodes[node].start >= nodes[root].end {
        inserted := InsertRight(root, node, t, iv);
        u := t.(right := Insert(t.right, node, iv).tree);
      } else {
        return root, false;
      }
      if !inserted {
        return root, false;
      }
      top := RebalanceAt(root, u);
    }

    /** `root->left = node_insert(root->left, node)`. */
    method InsertLeft(root: nat, node: nat, ghost t: Tree, ghost iv: Interval) returns (inserted: bool)
      requires Represents(nodes, t) && t.Node? && root == t.id && Distinct(t) && Avl(t) && Height(t) < 90
      requires Represents(nodes, Node(Leaf, node, iv, Leaf)) && node !in Ids(t)
      modifies this`nodes
      ensures inserted == Insert(t.left, node, iv).ok
      ensures Links(nodes, t.(left := Insert(t.left, node, iv).tree))
      ensures SameOutside(old(nodes), nodes, Ids(t) + {node})
      ensures !inserted ==> nodes == old(nodes)
      decreases t, 0
    {
      var r: int;
      r, inserted := NodeInsert(nodes[root].left, node, t.left, iv);
      InsertLevel(t, node, iv);
      RepresentsFrame(old(nodes), nodes, t.right);
      LinkLeft(root, r, t, Insert(t.left, node, iv).tree);
    }

    /** `root->right = node_insert(root->right, node)`. */
    method InsertRight(root: nat, node: nat, ghost t: Tree, ghost iv: Interval) returns (inserted: bool)
      requires Represents(nodes, t) && t.Node? && root == t.id && Distinct(t) && Avl(t) && Height(t) < 90
      requires Represents(nodes, Node(Leaf, node, iv, Leaf)) && node !in Ids(t)
      modifies this`nodes
      ensures inserted == Insert(t.right, node, iv).ok
      ensures Links(nodes, t.(right := Insert(t.right, node, iv).tree))
      ensures SameOutside(old(nodes), nodes, Ids(t) + {node})
      ensures !inserted ==> nodes == old(nodes)
      decreases t, 0
    {
      var r: int;
      r, inserted := NodeInsert(nodes[root].right, node, t.right, iv);
      InsertLevel(t, node, iv);
      RepresentsFrame(old(nodes), nodes, t.left);
      LinkRight(root, r, t, Insert(t.right, node, iv).tree);
    }

    /** The slot of the smallest interval below `node`. */
    method NodeLeftmost(node: int, ghost t: Tree) returns (low: int)
      requires Represents(nodes, t) && node == Root(t)
      ensures low == if t.Leaf? then NONE else Leftmost(t).id
      ensures t.Node? ==> 0 <= low < |nodes| && Points(nodes[low], Leftmost(t).iv, NONE, nodes[low].right)
    {
      low := node;
      ghost var c := t;
      while low != NONE && nodes[low].left != NONE
        invariant Represents(nodes, c) && low == Root(c) && c.Node? == t.Node?
        invariant t.Node? ==> Leftmost(c) == Leftmost(t)
        decreases c
      {
        low := nodes[low].left;
        c := c.left;
      }
    }

    /** Removes the exact range from the tree and frees the slot that falls out. */
    method NodeRemove(root: int, start: nat, end: nat, ghost t: Tree) returns (top: int, removed: bool)
      requires initialized && root == Root(t) && Owns(nodes, freeNodes, free, t)
      modifies this`nodes, this`freeNodes, this`free
      ensures removed == Remove(t, start, end).Removed?
      ensures top == Root(After(t, start, end)) && Represents(nodes, After(t, start, end))
      ensures free == FreeAfter(t, start, end, old(free)) && FreeChain(nodes, freeNodes, free)
      ensures |nodes| == MAX_NODES && SameOutside(old(nodes), nodes, Ids(t))
      decreases Size(t), 3
    {
      if root == NONE {
        return NONE, false;
      }
      OwnsIsLoose(nodes, freeNodes, free, t);
      if start == nodes[root].start {
        if nodes[root].end != end {
          return root, false;
        }
        if nodes[root].left == NONE || nodes[root].right == NONE {
          top := if nodes[root].left != NONE then nodes[root].left else nodes[root].right;
          NodeFree(root);
          RepresentsFrame(old(nodes), nodes, After(t, start, end));
          return top, true;
        }
      }
      removed := RemoveBelow(root, start, end, t);
      SettlesToAfter(t, start, end);
      ghost var before := nodes;
      top := RebalanceAt(root, Unsettled(t, start, end));
      FreeChainFrame(before, nodes, freeNodes, free);
    }

    /** The part of a removal that happens in a subtree of `root`. */
    method RemoveBelow(root: nat, start: nat, end: nat, ghost t: Tree) returns (removed: bool)
      requires initialized && t.Node? && root == t.id && Loose(nodes, freeNodes, free, t)
      requires Avl(t) && Sorted(InOrder(t))
      requires start == t.iv.start ==> end == t.iv.end && t.left.Node? && t.right.Node?
      modifies this`nodes, this`freeNodes, this`free
      ensures removed == Remove(t, start, end).Removed?
      ensures Loose(nodes, freeNodes, free, Unsettled(t, start, end)) && Ids(Unsettled(t, start, end)) <= Ids(t)
      ensures free == FreeAfter(t, start, end, old(free)) && SameOutside(old(nodes), nodes, Ids(t))
      decreases Size(t), 2
    {
      SettlesToAfter(t, start, end);
      if start < nodes[root].start {
        removed := RemoveLeft(root, start, end, t);
      } else if start > nodes[root].start {
        removed := RemoveRight(root, start, end, t);
      } else {
        removed := TakeSuccessor(root, t);
      }
    }

    /** `root->left = node_remove(root->left, start, end)`. */
    method RemoveLeft(root: nat, start: nat, end: nat, ghost t: Tree) returns (removed: bool)
      requires initialized && t.Node? && root == t.id && Loose(nodes, freeNodes, free, t)
      modifies this`nodes, this`freeNodes, this`free
      ensures removed == Remove(t.left, start, end).Removed?
      ensures Loose(nodes, freeNodes, free, t.(left := After(t.left, start, end)))
      ensures Ids(After(t.left, start, end)) <= Ids(t.left)
      ensures free == FreeAfter(t.left, start, end, old(free)) && SameOutside(old(nodes), nodes, Ids(t))
      decreases Size(t), 0
    {
      AfterFacts(t.left, start, end);
      AfterSorted(t.left, start, end);
      var r: int;
      r, removed := NodeRemove(nodes[root].left, start, end, t.left);
      RepresentsFrame(old(nodes), nodes, t.right);
      ghost var before := nodes;
      LinkLeft(root, r, t, After(t.left, start, end));
      FreeChainFrame(before, nodes, freeNodes, free);
    }

    /** `root->right = node_remove(root->right, start, end)`. */
    method RemoveRight(root: nat, start: nat, end: nat, ghost t: Tree) returns (removed: bool)
      requires initialized && t.Node? && root == t.id && Loose(nodes, freeNodes, free, t)
      modifies this`nodes, this`freeNodes, this`free
      ensures removed == Remove(t.right, start, end).Removed?
      ensures Loose(nodes, freeNodes, free, t.(right := After(t.right, start, end)))
      ensures Ids(After(t.right, start, end)) <= Ids(t.right)
      ensures free == FreeAfter(t.right, start, end, old(free)) && SameOutside(old(nodes), nodes, Ids(t))
      decreases Size(t), 0
    {
      AfterFacts(t.right, start, end);
      AfterSorted(t.right, start, end);
      var r: int;
      r, removed := NodeRemove(nodes[root].right, start, end, t.right);
      RepresentsFrame(old(nodes), nodes, t.left);
      ghost var before := nodes;
      LinkRight(root, r, t, After(t.right, start, end));
      FreeChainFrame(before, nodes, freeNodes, free);
    }

    /** Copies the successor's interval into the node and removes the successor instead. */
    method TakeSuccessor(root: nat, ghost t: Tree) returns (removed: bool)
      requires initialized && t.Node? && root == t.id && Loose(nodes, freeNodes, free, t)
      requires t.left.Node? && t.right.Node?
      modifies this`nodes, this`freeNodes, this`free
      ensures removed && Remove(t.right, Leftmost(t.right).iv.start, Leftmost(t.right).iv.end).Removed?
      ensures Loose(nodes, freeNodes, free, Unsettled(t, t.iv.start, t.iv.end))
      ensures Ids(Unsettled(t, t.iv.start, t.iv.end)) <= Ids(t)
      ensures free == FreeAfter(t.right, Leftmost(t.right).iv.start, Leftmost(t.right).iv.end, old(free))
      ensures SameOutside(old(nodes), nodes, Ids(t))
      decreases Size(t), 1
    {
      removed := true;
      var successor := NodeLeftmost(nodes[root].right, t.right);
      var s := nodes[successor];
      nodes := nodes[root := nodes[root].(start := s.start, end := s.end, flags := s.flags)];
      ghost var u := t.(iv := Leftmost(t.right).iv);
      RepresentsFrame(old(nodes), nodes, t.left);
      RepresentsFrame(old(nodes), nodes, t.right);
      FreeChainFrame(old(nodes), nodes, freeNodes, free);
      SuccessorIsThere(t.right);
      var dropped := RemoveRight(root, s.start, s.end, u);
    }

    /** A removal as the tree sees it: the pool's accounting is settled as well. */
    method Detach(root: int, start: nat, end: nat, ghost t: Tree) returns (top: int, removed: bool)
      requires Valid() && initialized && root == Root(t) && Represents(nodes, t)
      requires Distinct(t) && Avl(t) && Sorted(InOrder(t)) && Ids(t) <= used && Height(t) < 90
      modifies this
      ensures Valid() && initialized
      ensures removed == Remove(t, start, end).Removed?
      ensures top == Root(After(t, start, end)) && Represents(nodes, After(t, start, end))
      ensures used == old(used) - if removed then {Remove(t, start, end).freed} else {}
      ensures SameOutside(old(nodes), nodes, Ids(t))
    {
      top, removed := NodeRemove(root, start, end, t);
      if removed {
        AfterFacts(t, start, end);
        SplitPush(old(free), used, Remove(t, start, end).freed);
        used := used - {Remove(t, start, end).freed};
      }
    }
  }
}
