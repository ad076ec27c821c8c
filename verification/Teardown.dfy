/** What tearing an address space down releases: the leaf frames of each table, then the table,
    then its directory, and the root last. */
module Teardown {
  import opened PageTree

  /** The frames mapped by the first `n` entries of a table. */
  function Leaves(mem: Memory, f: nat, n: nat): set<nat>
    requires Tables(mem) && f < |mem| && n <= ENTRIES
  {
    set t | 0 <= t < n && Present(mem[f][t]) :: mem[f][t].frame
  }

  /** Slot `d` of a directory leads to a table. */
  predicate Branch(mem: Memory, f: nat, d: nat)
    requires Tables(mem) && f < |mem| && d < ENTRIES
  {
    Present(mem[f][d]) && mem[f][d].frame < |mem|
  }

  /** A table and everything it maps. */
  function Bundle(mem: Memory, f: nat): set<nat>
    requires Tables(mem) && f < |mem|
  {
    Leaves(mem, f, ENTRIES) + {f}
  }

  /** What hangs below the first `n` slots of a directory. */
  function Below(mem: Memory, dir: nat, n: nat): set<nat>
    requires Tables(mem) && dir < |mem| && n <= ENTRIES
  {
    set d, x | 0 <= d < n && Branch(mem, dir, d) && x in Bundle(mem, mem[dir][d].frame) :: x
  }

  /** What hangs below the first `n` user slots of a root. */
  function Spread(mem: Memory, root: nat, n: nat): set<nat>
    requires Tables(mem) && root < |mem| && n <= KERNEL_SLOT
  {
    set i, x | 0 <= i < n && Branch(mem, root, i) &&
               x in Below(mem, mem[root][i].frame, ENTRIES) + {mem[root][i].frame} :: x
  }

  // ------------------------------------------------------------------------------------
  // Nothing is released twice
  // ------------------------------------------------------------------------------------

  /** Frames in `s` exist and are in use. */
  ghost predicate InUse(s: set<nat>, free: set<nat>, total: nat) {
    forall x :: x in s ==> x < total && x !in free
  }

  ghost predicate NewLeaf(mem: Memory, f: nat, k: nat)
    requires Tables(mem) && f < |mem| && k < ENTRIES
  {
    Present(mem[f][k]) ==> mem[f][k].frame !in Leaves(mem, f, k)
  }

  /** Each entry of the table maps a frame that no earlier one does. */
  ghost predicate LeavesOnce(mem: Memory, f: nat)
    requires Tables(mem) && f < |mem|
  {
    f !in Leaves(mem, f, ENTRIES) && forall k :: 0 <= k < ENTRIES ==> NewLeaf(mem, f, k)
  }

  ghost predicate NewTable(mem: Memory, dir: nat, k: nat)
    requires Tables(mem) && dir < |mem| && k < ENTRIES
  {
    Branch(mem, dir, k) ==>
      LeavesOnce(mem, mem[dir][k].frame) && Bundle(mem, mem[dir][k].frame) !! Below(mem, dir, k)
  }

  ghost predicate BelowOnce(mem: Memory, dir: nat)
    requires Tables(mem) && dir < |mem|
  {
    dir !in Below(mem, dir, ENTRIES) && forall k :: 0 <= k < ENTRIES ==> NewTable(mem, dir, k)
  }

  ghost predicate NewDir(mem: Memory, root: nat, k: nat)
    requires Tables(mem) && root < |mem| && k < KERNEL_SLOT
  {
    Branch(mem, root, k) ==>
      BelowOnce(mem, mem[root][k].frame) &&
      Below(mem, mem[root][k].frame, ENTRIES) + {mem[root][k].frame} !! Spread(mem, root, k)
  }

  ghost predicate SpreadOnce(mem: Memory, root: nat)
    requires Tables(mem) && root < |mem|
  {
    root !in Spread(mem, root, KERNEL_SLOT) && forall k :: 0 <= k < KERNEL_SLOT ==> NewDir(mem, root, k)
  }

  // ------------------------------------------------------------------------------------
  // Membership
  // ------------------------------------------------------------------------------------

  lemma {:induction false} LeavesAre(mem: Memory, f: nat, n: nat, x: nat)
    requires Tables(mem) && f < |mem| && n <= ENTRIES
    ensures x in Leaves(mem, f, n) <==> exists t :: 0 <= t < n && Present(mem[f][t]) && mem[f][t].frame == x
  {
  }

  lemma {:induction false} BelowAre(mem: Memory, dir: nat, n: nat, x: nat)
    requires Tables(mem) && dir < |mem| && n <= ENTRIES
    ensures x in Below(mem, dir, n) <==>
        exists d :: 0 <= d < n && Branch(mem, dir, d) && x in Bundle(mem, mem[dir][d].frame)
  {
  }

  lemma {:induction false} SpreadAre(mem: Memory, root: nat, n: nat, x: nat)
    requires Tables(mem) && root < |mem| && n <= KERNEL_SLOT
    ensures x in Spread(mem, root, n) <==>
            exists i :: 0 <= i < n && Branch(mem, root, i) &&
                        (x == mem[root][i].frame || x in Below(mem, mem[root][i].frame, ENTRIES))
  {
    if i :| 0 <= i < n && Branch(mem, root, i) &&
            (x == mem[root][i].frame || x in Below(mem, mem[root][i].frame, ENTRIES)) {
      assert x in Below(mem, mem[root][i].frame, ENTRIES) + {mem[root][i].frame};
    }
  }

  /** A present entry adds exactly one frame, which is still in use when its turn comes. */
  lemma {:induction false} NextLeaf(mem: Memory, f: nat, t: nat, free: set<nat>, total: nat)
    requires Tables(mem) && f < |mem| && t < ENTRIES
    requires LeavesOnce(mem, f) && InUse(Bundle(mem, f), free, total)
    ensures if Present(mem[f][t]) then
              mem[f][t].frame < total && mem[f][t].frame !in Leaves(mem, f, t) &&
              Leaves(mem, f, t + 1) == Leaves(mem, f, t) + {mem[f][t].frame}
            else Leaves(mem, f, t + 1) == Leaves(mem, f, t)
  {
    assert NewLeaf(mem, f, t);
    if Present(mem[f][t]) { assert mem[f][t].frame in Leaves(mem, f, ENTRIES); }
  }

  lemma {:induction false} BelowNext(mem: Memory, dir: nat, d: nat)
    requires Tables(mem) && dir < |mem| && d < ENTRIES
    ensures Below(mem, dir, d + 1) ==
        Below(mem, dir, d) + if Branch(mem, dir, d) then Bundle(mem, mem[dir][d].frame) else {}
    ensures Below(mem, dir, d + 1) <= Below(mem, dir, ENTRIES)
  {
  }

  /** A branch adds its table's bundle, all of it still in use when its turn comes. */
  lemma {:induction false} NextTable(mem: Memory, dir: nat, d: nat, free: set<nat>, total: nat)
    requires Tables(mem) && dir < |mem| && d < ENTRIES
    requires BelowOnce(mem, dir) && InUse(Below(mem, dir, ENTRIES), free, total)
    ensures if Branch(mem, dir, d) then
              var b := Bundle(mem, mem[dir][d].frame);
              LeavesOnce(mem, mem[dir][d].frame) && InUse(b, free + Below(mem, dir, d), total) &&
              Below(mem, dir, d + 1) == Below(mem, dir, d) + b && Below(mem, dir, d) !! b
            else Below(mem, dir, d + 1) == Below(mem, dir, d)
  {
    assert NewTable(mem, dir, d);
    BelowNext(mem, dir, d);
  }

  lemma {:induction false} SpreadNext(mem: Memory, root: nat, i: nat)
    requires Tables(mem) && root < |mem| && i < KERNEL_SLOT
    ensures Spread(mem, root, i + 1) == Spread(mem, root, i) +
            if Branch(mem, root, i) then Below(mem, mem[root][i].frame, ENTRIES) + {mem[root][i].frame} else {}
    ensures Spread(mem, root, i + 1) <= Spread(mem, root, KERNEL_SLOT)
  {
  }

  lemma {:induction false} NextDir(mem: Memory, root: nat, i: nat, free: set<nat>, total: nat)
    requires Tables(mem) && root < |mem| && i < KERNEL_SLOT
    requires SpreadOnce(mem, root) && InUse(Spread(mem, root, KERNEL_SLOT), free, total)
    ensures if Branch(mem, root, i) then
              var b := Below(mem, mem[root][i].frame, ENTRIES) + {mem[root][i].frame};
              BelowOnce(mem, mem[root][i].frame) && InUse(b, free + Spread(mem, root, i), total) &&
              Spread(mem, root, i + 1) == Spread(mem, root, i) + b && Spread(mem, root, i) !! b
            else Spread(mem, root, i + 1) == Spread(mem, root, i)
  {
    assert NewDir(mem, root, i);
    SpreadNext(mem, root, i);
  }

  /** Page `(i, d, t)` of a space is mapped to frame `x`. */
  ghost predicate MapsTo(mem: Memory, root: nat, i: nat, d: nat, t: nat, x: nat)
    requires Tables(mem)
  {
    i < KERNEL_SLOT && d < ENTRIES && t < ENTRIES && Names(Walk(mem, root, i, d, t), x)
  }

  /** The pages of a space map distinct frames that are in use and hold no tables. */
  ghost predicate Private(mem: Memory, root: nat, owner: map<nat, Owner>, free: set<nat>, total: nat)
    requires Tables(mem)
  {
    (forall i: nat, d: nat, t: nat,
     x: nat :: MapsTo(mem, root, i, d, t, x) ==> x < total && x !in free && x !in owner) &&
    (forall i: nat, d: nat, t: nat, i': nat, d': nat, t': nat,
     x: nat :: MapsTo(mem, root, i, d, t, x) && MapsTo(mem, root, i', d', t', x) ==>
       i == i' && d == d' && t == t')
  }

  /** What a frame below slot `d` of a directory is: that slot's table, or a frame it maps. */
  lemma {:induction false} BundleMember(mem: Memory, roots: map<nat, nat>, owner: map<nat, Owner>, kdir: nat, s: nat,
                                        i: nat, d: nat, x: nat)
    requires Forest(mem, roots, owner, kdir) && HasDir(mem, roots, s, i) && d < ENTRIES
    requires Branch(mem, DirFrame(mem, roots, s, i), d)
    ensures x in Bundle(mem, mem[DirFrame(mem, roots, s, i)][d].frame) <==>
            (x in owner && owner[x] == TableOf(s, i, d)) || exists t: nat :: MapsTo(mem, roots[s], i, d, t, x)
  {
    Path(mem, roots, owner, kdir, s, i, d);
    var f := mem[DirFrame(mem, roots, s, i)][d].frame;
    LeavesAre(mem, f, ENTRIES, x);
    if x in owner && owner[x] == TableOf(s, i, d) { assert Placed(mem, roots, owner, kdir, x); }
    if t :| 0 <= t < ENTRIES && Present(mem[f][t]) && mem[f][t].frame == x { assert MapsTo(mem, roots[s], i, d, t, x); }
  }

  lemma {:induction false} TableReleasedOnce(mem: Memory, roots: map<nat, nat>, owner: map<nat, Owner>, kdir: nat,
                                             free: set<nat>, total: nat, s: nat, i: nat, d: nat)
    requires Forest(mem, roots, owner, kdir) && HasDir(mem, roots, s, i) && d < ENTRIES
    requires Branch(mem, DirFrame(mem, roots, s, i), d) && Private(mem, roots[s], owner, free, total)
    ensures LeavesOnce(mem, mem[DirFrame(mem, roots, s, i)][d].frame)
  {
    Path(mem, roots, owner, kdir, s, i, d);
    var f := mem[DirFrame(mem, roots, s, i)][d].frame;
    if f in Leaves(mem, f, ENTRIES) {
      LeavesAre(mem, f, ENTRIES, f);
      var t :| 0 <= t < ENTRIES && Present(mem[f][t]) && mem[f][t].frame == f;
      assert MapsTo(mem, roots[s], i, d, t, f);
    }
    forall k | 0 <= k < ENTRIES ensures NewLeaf(mem, f, k) {
      if Present(mem[f][k]) {
        var x := mem[f][k].frame;
        LeavesAre(mem, f, k, x);
        assert MapsTo(mem, roots[s], i, d, k, x);
        if t :| 0 <= t < k && Present(mem[f][t]) && mem[f][t].frame == x { assert MapsTo(mem, roots[s], i, d, t, x); }
      }
    }
  }

  /** What a frame below user slot `i` of the root is: that slot's directory, one of its
      tables, or a frame they map. */
  ghost predicate OnSide(mem: Memory, roots: map<nat, nat>, owner: map<nat, Owner>, s: nat, i: nat, x: nat)
    requires Tables(mem) && s in roots
  {
    (x in owner && (owner[x] == DirOf(s, i) || exists d :: owner[x] == TableOf(s, i, d))) ||
    exists d: nat, t: nat :: MapsTo(mem, roots[s], i, d, t, x)
  }

  lemma {:induction false} SideMember(mem: Memory, roots: map<nat, nat>, owner: map<nat, Owner>, kdir: nat, s: nat,
                                      i: nat, x: nat)
    requires Forest(mem, roots, owner, kdir) && HasDir(mem, roots, s, i)
    ensures x in Below(mem, DirFrame(mem, roots, s, i), ENTRIES) + {DirFrame(mem, roots, s, i)} <==>
            OnSide(mem, roots, owner, s, i, x)
  {
    var dir := DirFrame(mem, roots, s, i);
    BelowAre(mem, dir, ENTRIES, x);
    Path(mem, roots, owner, kdir, s, i, 0);
    if d :| 0 <= d < ENTRIES && Branch(mem, dir, d) && x in Bundle(mem, mem[dir][d].frame) {
      BundleMember(mem, roots, owner, kdir, s, i, d, x);
    }
    if x in owner && owner[x] == DirOf(s, i) { assert Placed(mem, roots, owner, kdir, x); }
    if d :| x in owner && owner[x] == TableOf(s, i, d) {
      assert Placed(mem, roots, owner, kdir, x);
      BundleMember(mem, roots, owner, kdir, s, i, d, x);
    }
    if d: nat, t: nat :| MapsTo(mem, roots[s], i, d, t, x) {
      Path(mem, roots, owner, kdir, s, i, d);
      BundleMember(mem, roots, owner, kdir, s, i, d, x);
    }
  }

  lemma {:induction false} DirReleasedOnce(mem: Memory, roots: map<nat, nat>, owner: map<nat, Owner>, kdir: nat,
                                           free: set<nat>, total: nat, s: nat, i: nat)
    requires Forest(mem, roots, owner, kdir) && HasDir(mem, roots, s, i) && Private(mem, roots[s], owner, free, total)
    ensures BelowOnce(mem, DirFrame(mem, roots, s, i))
  {
    var dir := DirFrame(mem, roots, s, i);
    Path(mem, roots, owner, kdir, s, i, 0);
    if dir in Below(mem, dir, ENTRIES) {
      BelowAre(mem, dir, ENTRIES, dir);
      var d :| 0 <= d < ENTRIES && Branch(mem, dir, d) && dir in Bundle(mem, mem[dir][d].frame);
      BundleMember(mem, roots, owner, kdir, s, i, d, dir);
    }
    forall k | 0 <= k < ENTRIES ensures NewTable(mem, dir, k) {
      if Branch(mem, dir, k) {
        TableReleasedOnce(mem, roots, owner, kdir, free, total, s, i, k);
        forall x | x in Bundle(mem, mem[dir][k].frame) ensures x !in Below(mem, dir, k) {
          BundleMember(mem, roots, owner, kdir, s, i, k, x);
          if x in Below(mem, dir, k) {
            BelowAre(mem, dir, k, x);
            var d :| 0 <= d < k && Branch(mem, dir, d) && x in Bundle(mem, mem[dir][d].frame);
            BundleMember(mem, roots, owner, kdir, s, i, d, x);
          }
        }
      }
    }
  }

  lemma {:induction false} BranchIsDir(mem: Memory, roots: map<nat, nat>, owner: map<nat, Owner>, kdir: nat, s: nat,
                                       i: nat)
    requires Forest(mem, roots, owner, kdir) && s in roots && i < KERNEL_SLOT
    ensures roots[s] < |mem| && (Branch(mem, roots[s], i) <==> HasDir(mem, roots, s, i))
  {
    Path(mem, roots, owner, kdir, s, i, 0);
  }

  /** A space whose pages are private is torn down without releasing any frame twice. */
  lemma {:induction false} SpaceReleasedOnce(mem: Memory, roots: map<nat, nat>, owner: map<nat, Owner>, kdir: nat,
                                             free: set<nat>, total: nat, s: nat)
    requires Forest(mem, roots, owner, kdir) && s in roots && Private(mem, roots[s], owner, free, total)
    ensures roots[s] < |mem| && SpreadOnce(mem, roots[s])
  {
    var root := roots[s];
    assert Placed(mem, roots, owner, kdir, root);
    if root in Spread(mem, root, KERNEL_SLOT) {
      SpreadAre(mem, root, KERNEL_SLOT, root);
      var i :| 0 <= i < KERNEL_SLOT && Branch(mem, root, i) &&
               (root == mem[root][i].frame || root in Below(mem, mem[root][i].frame, ENTRIES));
      BranchIsDir(mem, roots, owner, kdir, s, i);
      SideMember(mem, roots, owner, kdir, s, i, root);
    }
    forall k | 0 <= k < KERNEL_SLOT ensures NewDir(mem, root, k) {
      if Branch(mem, root, k) {
        BranchIsDir(mem, roots, owner, kdir, s, k);
        DirReleasedOnce(mem, roots, owner, kdir, free, total, s, k);
        forall x | x in Below(mem, mem[root][k].frame, ENTRIES) + {mem[root][k].frame}
          ensures x !in Spread(mem, root, k)
        {
          if x in Spread(mem, root, k) { SidesApart(mem, roots, owner, kdir, free, total, s, k, x); }
        }
      }
    }
  }

  lemma {:induction false} SidesApart(mem: Memory, roots: map<nat, nat>, owner: map<nat, Owner>, kdir: nat,
                                      free: set<nat>, total: nat, s: nat, k: nat, x: nat)
    requires Forest(mem, roots, owner, kdir) && HasDir(mem, roots, s, k) && Private(mem, roots[s], owner, free, total)
    requires x in Below(mem, DirFrame(mem, roots, s, k), ENTRIES) + {DirFrame(mem, roots, s, k)}
    ensures x !in Spread(mem, roots[s], k)
  {
    SideMember(mem, roots, owner, kdir, s, k, x);
    if x in Spread(mem, roots[s], k) {
      SpreadAre(mem, roots[s], k, x);
      var i :| 0 <= i < k && Branch(mem, roots[s], i) &&
               (x == mem[roots[s]][i].frame || x in Below(mem, mem[roots[s]][i].frame, ENTRIES));
      BranchIsDir(mem, roots, owner, kdir, s, i);
      SideMember(mem, roots, owner, kdir, s, i, x);
    }
  }

  ghost predicate Mapped(mem: Memory, root: nat, x: nat)
    requires Tables(mem)
  {
    exists i: nat, d: nat, t: nat :: MapsTo(mem, root, i, d, t, x)
  }

  /** The frames that a space's user pages are mapped to. */
  ghost function PageFrames(mem: Memory, root: nat, total: nat): set<nat>
    requires Tables(mem)
  {
    set x: nat | x < total && Mapped(mem, root, x)
  }

  /** Tearing down releases exactly the space's table frames and the frames of its pages. */
  lemma {:induction false} ReleasedFrames(mem: Memory, roots: map<nat, nat>, owner: map<nat, Owner>, kdir: nat,
                                          free: set<nat>, total: nat, s: nat)
    requires Forest(mem, roots, owner, kdir) && s in roots && Private(mem, roots[s], owner, free, total)
    ensures roots[s] < |mem|
    ensures Spread(mem, roots[s], KERNEL_SLOT) + {roots[s]} == FramesOf(owner, s) + PageFrames(mem, roots[s], total)
  {
    var root := roots[s];
    assert Placed(mem, roots, owner, kdir, root);
    forall x
      ensures x in Spread(mem, root, KERNEL_SLOT) + {root} <==> x in FramesOf(owner, s) + PageFrames(mem, root, total)
    {
      ReleasedFrame(mem, roots, owner, kdir, free, total, s, x);
    }
  }

  lemma {:induction false} ReleasedFrame(mem: Memory, roots: map<nat, nat>, owner: map<nat, Owner>, kdir: nat,
                                         free: set<nat>, total: nat, s: nat, x: nat)
    requires Forest(mem, roots, owner, kdir) && s in roots && roots[s] < |mem| &&
      Private(mem, roots[s], owner, free, total)
    ensures x in Spread(mem, roots[s], KERNEL_SLOT) + {roots[s]} <==>
        x in FramesOf(owner, s) + PageFrames(mem, roots[s], total)
  {
    var root := roots[s];
    SpreadAre(mem, root, KERNEL_SLOT, x);
    forall i | 0 <= i < KERNEL_SLOT && Branch(mem, root, i)
      ensures HasDir(mem, roots, s, i)
      ensures x == mem[root][i].frame || x in Below(mem, mem[root][i].frame, ENTRIES) <==>
          OnSide(mem, roots, owner, s, i, x)
    {
      BranchIsDir(mem, roots, owner, kdir, s, i);
      SideMember(mem, roots, owner, kdir, s, i, x);
    }
    if x in owner && owner[x].s == s {
      assert Placed(mem, roots, owner, kdir, x);
      if !owner[x].RootOf? {
        BranchIsDir(mem, roots, owner, kdir, s, owner[x].i);
        assert OnSide(mem, roots, owner, s, owner[x].i, x);
      }
    }
    if i: nat, d: nat, t: nat :| MapsTo(mem, root, i, d, t, x) {
      Path(mem, roots, owner, kdir, s, i, d);
      assert OnSide(mem, roots, owner, s, i, x) && Mapped(mem, root, x);
    }
  }
}
