/** Maps and unmaps of user pages, and what every page allows before and after. */
module Permissions {
  import opened PageTree
  import opened PageRights
  import opened KernelHalf
  import opened AddressSpaces
  import opened TableUse

  // ------------------------------------------------------------------------------------
  // A map
  // ------------------------------------------------------------------------------------

  /** An entry that leads somewhere is open afterwards. */
  lemma {:induction false} LedOpens(mem: Memory, f: nat, k: nat, g: nat, s: nat)
    requires Tables(mem) && f < |mem| && g < |mem| && k < ENTRIES && f != g
    requires Present(mem[f][k]) ==> Gate(s, mem[f][k])
    ensures ForUser(Led(mem, f, k, g)[f][k]) && Writable(Led(mem, f, k, g)[f][k])
  {
    TableFlags();
    KeepsBits(mem[f][k].flags);
  }

  /** What the three tables and all others hold after a map. */
  ghost predicate Rewritten(a: Memory, b: Memory, root: nat, i: nat, d: nat, t: nat, dir: nat, table: nat, e: Entry)
    requires Tables(a) && Tables(b) && i < ENTRIES && d < ENTRIES && t < ENTRIES
  {
    |a| == |b| && root < |a| && dir < |a| && table < |a| &&
    (Present(b[root][i]) && ForUser(b[root][i]) && Writable(b[root][i]) && b[root][i].frame == dir) &&
    (Present(b[dir][d]) && ForUser(b[dir][d]) && Writable(b[dir][d]) && b[dir][d].frame == table) &&
    !Large(b[dir][d]) && b[table][t] == e &&
    (forall j :: 0 <= j < ENTRIES && j != i ==> b[root][j] == a[root][j]) &&
    (forall j :: 0 <= j < ENTRIES && j != d ==>
      if Present(a[root][i]) then b[dir][j] == a[dir][j] else !Present(b[dir][j])) &&
    (forall j :: 0 <= j < ENTRIES && j != t ==>
      if Present(a[root][i]) && Present(a[dir][d]) then b[table][j] == a[table][j] else !Present(b[table][j])) &&
    forall h :: 0 <= h < |a| && h != root && h != dir && h != table ==> b[h] == a[h]
  }

  lemma {:induction false} PageRewrites(mem: Memory, root: nat, i: nat, d: nat, t: nat, dir: nat, table: nat, e: Entry,
                                        s: nat)
    requires Tables(mem) && i < ENTRIES && d < ENTRIES && t < ENTRIES && Threads(mem, root, i, d, dir, table)
    requires Present(mem[root][i]) ==> Gate(s, mem[root][i]) && (Present(mem[dir][d]) ==> Gate(s, mem[dir][d]))
    ensures Rewritten(mem, WithPage(mem, root, i, d, t, dir, table, e), root, i, d, t, dir, table, e)
  {
    var m := Led(mem, root, i, dir);
    LedFacts(mem, root, i, dir);
    LedOpens(mem, root, i, dir, s);
    LedFacts(m, dir, d, table);
    LedOpens(m, dir, d, table, s);
  }

  /** The frames of the path belong to it alone. */
  ghost predicate PathAlone(mem: Memory, roots: map<nat, nat>, owner: map<nat, Owner>, s: nat, i: nat, d: nat, dir: nat,
                            table: nat)
    requires Tables(mem) && s in roots && roots[s] < |mem| && dir < |mem| && i < ENTRIES && d < ENTRIES
  {
    (if Present(mem[roots[s]][i]) then dir in owner && owner[dir] == DirOf(s, i) else dir !in owner) &&
    if Present(mem[roots[s]][i]) && Present(mem[dir][d]) then table in owner && owner[table] == TableOf(s, i, d)
    else table !in owner
  }

  lemma {:induction false} RightsAfter(a: Memory, b: Memory, roots: map<nat, nat>, owner: map<nat, Owner>, kdir: nat,
                                       s0: nat, i0: nat, d0: nat, t0: nat, dir: nat, table: nat, e: Entry, s: nat,
                                       i: nat, d: nat, t: nat, top: bool)
    requires Forest(a, roots, owner, kdir) && Tables(b) && s0 in roots && roots[s0] < |a| && dir < |a|
    requires i0 < KERNEL_SLOT && d0 < ENTRIES && t0 < ENTRIES && Threads(a, roots[s0], i0, d0, dir, table)
    requires PathAlone(a, roots, owner, s0, i0, d0, dir, table) && Present(e) && ForUser(e)
    requires Rewritten(a, b, roots[s0], i0, d0, t0, dir, table, e)
    requires s in roots && i < KERNEL_SLOT && d < ENTRIES && t < ENTRIES
    ensures Permission(b, roots[s], i, d, t, top) ==
            if s == s0 && i == i0 && d == d0 && t == t0 then Allows(true, Writable(e))
            else Widened(a, roots[s], i, d, t, top, s == s0 && i == i0, s == s0 && i == i0 && d == d0)
  {
    Path(a, roots, owner, kdir, s, i, d);
    Path(a, roots, owner, kdir, s0, i0, d0);
  }

  /** A page that was mapped is open to user mode, writable as its entry says, and no other page lost
      anything. */
  lemma {:induction false} PagePermitted(a: Snap, b: Snap, roots: map<nat, nat>, base: nat, s: nat, i: nat, d: nat,
                                         t: nat, dir: nat, table: nat, e: Entry)
    requires Inv(a.mem, roots, a.owner, base, a.free) && s in roots && i < KERNEL_SLOT && Present(e) && ForUser(e)
    requires PageIn(a, b, s, roots[s], i, d, t, dir, table, e)
    ensures Tables(b.mem) && Permitted(a.mem, b.mem, roots, s, i, d, t, Writable(e))
  {
    Path(a.mem, roots, a.owner, KernelDir(base), s, i, d);
    PageRewrites(a.mem, roots[s], i, d, t, dir, table, e, s);
    forall s2, i2, d2, t2, top |
      s2 in roots && 0 <= i2 < KERNEL_SLOT && 0 <= d2 < ENTRIES && 0 <= t2 < ENTRIES
      ensures Permission(b.mem, roots[s2], i2, d2, t2, top) ==
              if s2 == s && i2 == i && d2 == d && t2 == t then Allows(true, Writable(e))
              else Widened(a.mem, roots[s2], i2, d2, t2, top, s2 == s && i2 == i, s2 == s && i2 == i && d2 == d)
    {
      RightsAfter(a.mem, b.mem, roots, a.owner, KernelDir(base), s, i, d, t, dir, table, e, s2, i2, d2, t2, top);
    }
  }

  /** The one upper entry that a refused map may have written, as a space's rights show it. */
  lemma {:induction false} RefusedAt(a: Snap, b: Snap, roots: map<nat, nat>, base: nat, s0: nat, i0: nat, dir: nat,
                                     initialized: bool, s: nat, i: nat, d: nat, t: nat, top: bool)
    requires Inv(a.mem, roots, a.owner, base, a.free) && s0 in roots && i0 < KERNEL_SLOT && Tables(b.mem)
    requires LeftOver(a, b, s0, roots[s0], i0, dir, initialized)
    requires s in roots && i < KERNEL_SLOT && d < ENTRIES && t < ENTRIES
    ensures Permission(b.mem, roots[s], i, d, t, top) ==
            Widened(a.mem, roots[s], i, d, t, top, s == s0 && i == i0, false)
  {
    var root := roots[s0];
    Path(a.mem, roots, a.owner, KernelDir(base), s, i, d);
    Path(a.mem, roots, a.owner, KernelDir(base), s0, i0, 0);
    TableFlags();
    KeepsBits(a.mem[root][i0].flags);
  }

  /** A refused map at most lifts the restriction of the root's entry on the way. */
  lemma {:induction false} MapRefused(a: Snap, b: Snap, roots: map<nat, nat>, base: nat, s: nat, i: nat, dir: nat,
                                      initialized: bool)
    requires Inv(a.mem, roots, a.owner, base, a.free) && s in roots && i < KERNEL_SLOT && Tables(b.mem)
    requires LeftOver(a, b, s, roots[s], i, dir, initialized)
    ensures Refused(a.mem, b.mem, roots, s, i)
  {
    forall s2, i2, d2, t2, top |
      s2 in roots && 0 <= i2 < KERNEL_SLOT && 0 <= d2 < ENTRIES && 0 <= t2 < ENTRIES
      ensures Permission(b.mem, roots[s2], i2, d2, t2, top) ==
              Widened(a.mem, roots[s2], i2, d2, t2, top, s2 == s && i2 == i, false)
    {
      RefusedAt(a, b, roots, base, s, i, dir, initialized, s2, i2, d2, t2, top);
    }
  }

  // ------------------------------------------------------------------------------------
  // An unmap
  // ------------------------------------------------------------------------------------

  /** Entries were cleared and none was written otherwise. */
  ghost predicate Pruned(a: Memory, b: Memory)
    requires Tables(a) && Tables(b)
  {
    |a| == |b| && forall f, k :: 0 <= f < |a| && 0 <= k < ENTRIES ==> b[f][k] == a[f][k] || b[f][k] == ZERO
  }

  lemma {:induction false} PrunedPut(a: Memory, f: nat, k: nat)
    requires Tables(a) && f < |a| && k < ENTRIES
    ensures Pruned(a, a) && Pruned(a, Put(a, f, k, ZERO))
  {
  }

  lemma {:induction false} PrunedTrans(a: Memory, b: Memory, c: Memory)
    requires Tables(a) && Tables(b) && Tables(c) && Pruned(a, b) && Pruned(b, c)
    ensures Pruned(a, c)
  {
  }

  /** Where the lookups are the same, clearing entries changes no right. */
  lemma {:induction false} PrunedSame(a: Memory, b: Memory, root: nat, i: nat, d: nat, t: nat, top: bool)
    requires Tables(a) && Tables(b) && Pruned(a, b) && i < 4 && d < ENTRIES && t < ENTRIES
    requires Walk(b, root, i, d, t) == Walk(a, root, i, d, t)
    ensures Permission(b, root, i, d, t, top) == Permission(a, root, i, d, t, top)
  {
    BootFlags();
    DeniedIsMiss(a, root, i, d, t, top);
    DeniedIsMiss(b, root, i, d, t, top);
  }

  lemma {:induction false} PageWithdrawn(a: Memory, b: Memory, roots: map<nat, nat>, s: nat, i: nat, d: nat, t: nat)
    requires Tables(a) && Tables(b) && Pruned(a, b) && OneWalk(a, b, roots, s, i, d, t, Miss)
    ensures Withdrawn(a, b, roots, s, i, d, t)
  {
    forall s2, i2, d2, t2, top |
      s2 in roots && 0 <= i2 < KERNEL_SLOT && 0 <= d2 < ENTRIES && 0 <= t2 < ENTRIES
      ensures Permission(b, roots[s2], i2, d2, t2, top) ==
              if s2 == s && i2 == i && d2 == d && t2 == t then Denied else Permission(a, roots[s2], i2, d2, t2, top)
    {
      DeniedIsMiss(b, roots[s2], i2, d2, t2, top);
      if !(s2 == s && i2 == i && d2 == d && t2 == t) { PrunedSame(a, b, roots[s2], i2, d2, t2, top); }
    }
  }
}
