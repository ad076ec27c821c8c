/** The kernel half of every address space: one shared page directory and statically placed
    page tables.  The static walk goes straight to the table that belongs to a directory
    slot; the hardware walk follows the frame in the directory entry.  They agree because a
    present directory entry always names its own static table. */
module KernelHalf {
  import opened PageTree

  const DIRECT_MAP_TABLES: nat := 128
  const DYNAMIC_FIRST: nat := 384
  const DYNAMIC_LAST: nat := 510
  /** Number of statically placed frames: root, identity directory and two tables, kernel
      directory, direct-map tables, dynamic tables. */
  const STATIC_FRAMES: nat := 259

  // The static structures, laid out from frame `base` on.
  function KernelRoot(base: nat): nat { base }
  function IdentityDir(base: nat): nat { base + 1 }
  function IdentityTable(base: nat, k: nat): nat { base + 2 + k }
  function KernelDir(base: nat): nat { base + 4 }

  predicate IsDynamic(d: nat) { DYNAMIC_FIRST <= d < DYNAMIC_LAST }

  /** Directory slots that have a static table. */
  predicate HasTable(d: nat) { d < DIRECT_MAP_TABLES || IsDynamic(d) }

  function TableFrame(base: nat, d: nat): nat
    requires HasTable(d)
  {
    if d < DIRECT_MAP_TABLES then base + 5 + d else base + 5 + DIRECT_MAP_TABLES + (d - DYNAMIC_FIRST)
  }

  /** The frames only the kernel half uses. */
  predicate IsKernelFrame(base: nat, f: nat) { base + 4 <= f < base + STATIC_FRAMES }

  /** Every present entry of the kernel directory is writable and names its own static table. */
  ghost predicate KernelOk(mem: Memory, base: nat) {
    Tables(mem) && base + STATIC_FRAMES <= |mem| &&
    forall d :: 0 <= d < ENTRIES && Present(mem[KernelDir(base)][d]) ==>
      Writable(mem[KernelDir(base)][d]) && !Large(mem[KernelDir(base)][d]) && HasTable(d) &&
      mem[KernelDir(base)][d].frame == TableFrame(base, d)
  }

  /** The walk over the static tables. */
  function StaticWalk(mem: Memory, base: nat, i: nat, d: nat, t: nat): Lookup
    requires Tables(mem) && base + STATIC_FRAMES <= |mem| && i < 4 && d < ENTRIES && t < ENTRIES
  {
    if !Present(mem[KernelRoot(base)][i]) then Miss
    else if i == KERNEL_SLOT then KernelWalk(mem, base, d, t)
    else if i == 0 then
      if d >= 2 || !Present(mem[IdentityDir(base)][d]) then Miss else LeafOf(mem[IdentityTable(base, d)][t])
    else Miss
  }

  function KernelWalk(mem: Memory, base: nat, d: nat, t: nat): Lookup
    requires Tables(mem) && base + STATIC_FRAMES <= |mem| && d < ENTRIES && t < ENTRIES
  {
    var pde := mem[KernelDir(base)][d];
    if !Present(pde) then Miss
    else if Large(pde) then Hit(pde.frame / ENTRIES * ENTRIES + t, pde.flags)
    else if !HasTable(d) then Miss
    else LeafOf(mem[TableFrame(base, d)][t])
  }

  /** At kernel addresses the static walk and the walk in any space give the same answer. */
  lemma {:induction false} WalksAgree(mem: Memory, roots: map<nat, nat>, owner: map<nat, Owner>, base: nat, s: nat,
                                      d: nat, t: nat)
    requires Forest(mem, roots, owner, KernelDir(base)) && KernelOk(mem, base)
    requires s in roots && 0 in roots && roots[0] == KernelRoot(base) && d < ENTRIES && t < ENTRIES
    ensures roots[s] < |mem| && Walk(mem, roots[s], KERNEL_SLOT, d, t) == KernelWalk(mem, base, d, t)
    ensures StaticWalk(mem, base, KERNEL_SLOT, d, t) == KernelWalk(mem, base, d, t)
  {
    assert Placed(mem, roots, owner, KernelDir(base), roots[s]);
    assert Placed(mem, roots, owner, KernelDir(base), roots[0]);
  }

  // ------------------------------------------------------------------------------------
  // Kernel-half updates
  // ------------------------------------------------------------------------------------

  ghost predicate SameKernelWalks(a: Memory, b: Memory, base: nat)
    requires Tables(a) && Tables(b) && base + STATIC_FRAMES <= |a| == |b|
  {
    forall d, t :: 0 <= d < ENTRIES && 0 <= t < ENTRIES ==> KernelWalk(b, base, d, t) == KernelWalk(a, base, d, t)
  }

  ghost predicate OneKernelWalk(a: Memory, b: Memory, base: nat, d0: nat, t0: nat, l: Lookup)
    requires Tables(a) && Tables(b) && base + STATIC_FRAMES <= |a| == |b|
  {
    forall d, t :: 0 <= d < ENTRIES && 0 <= t < ENTRIES ==>
      KernelWalk(b, base, d, t) == if d == d0 && t == t0 then l else KernelWalk(a, base, d, t)
  }

  /** The two memories differ only in frames of the kernel half. */
  ghost predicate OnlyKernelFrames(a: Memory, b: Memory, base: nat) {
    |a| == |b| && forall f :: 0 <= f < |a| && !IsKernelFrame(base, f) ==> a[f] == b[f]
  }

  /** The two memories agree on the frames of the kernel half. */
  ghost predicate KernelFramesKept(a: Memory, b: Memory, base: nat) {
    |a| == |b| && forall f :: 0 <= f < |a| && IsKernelFrame(base, f) ==> a[f] == b[f]
  }

  lemma {:induction false} KernelKept(a: Memory, b: Memory, base: nat)
    requires KernelOk(a, base) && Tables(b) && KernelFramesKept(a, b, base)
    ensures KernelOk(b, base) && SameKernelWalks(a, b, base)
  {
  }

  /** Updates in the kernel half leave the forest of user tables alone. */
  lemma {:induction false} ForestKept(a: Memory, b: Memory, roots: map<nat, nat>, owner: map<nat, Owner>, base: nat)
    requires Forest(a, roots, owner, KernelDir(base)) && Tables(b) && OnlyKernelFrames(a, b, base)
    requires forall f :: f in owner ==> !IsKernelFrame(base, f)
    ensures Forest(b, roots, owner, KernelDir(base)) && SameWalks(a, b, roots)
  {
    forall f | f in owner ensures Placed(b, roots, owner, KernelDir(base), f) {
      assert Placed(a, roots, owner, KernelDir(base), f);
      if owner[f].TableOf? { Path(a, roots, owner, KernelDir(base), owner[f].s, owner[f].i, owner[f].d); }
    }
    forall s, i, d, t | s in roots && 0 <= i < KERNEL_SLOT && 0 <= d < ENTRIES && 0 <= t < ENTRIES
      ensures Walk(b, roots[s], i, d, t) == Walk(a, roots[s], i, d, t)
    {
      Path(a, roots, owner, KernelDir(base), s, i, d);
    }
  }

  /** Writing an entry of a static table that is hung in. */
  lemma {:induction false} KernelLeafWrite(mem: Memory, base: nat, d: nat, t: nat, e: Entry)
    requires KernelOk(mem, base) && d < ENTRIES && HasTable(d) && t < ENTRIES && Present(mem[KernelDir(base)][d])
    ensures var m := Put(mem, TableFrame(base, d), t, e);
            KernelOk(m, base) && OneKernelWalk(mem, m, base, d, t, LeafOf(e)) && OnlyKernelFrames(mem, m, base)
  {
  }

  /** Hanging in a wiped static table. */
  lemma {:induction false} KernelAttach(mem: Memory, base: nat, d: nat, flags: bv12)
    requires KernelOk(mem, base) && d < ENTRIES && HasTable(d) && !Present(mem[KernelDir(base)][d])
    requires flags & PRESENT != 0 && flags & LARGE == 0 && flags & WRITABLE != 0
    ensures var m := Put(Wipe(mem, TableFrame(base, d)), KernelDir(base), d, Entry(TableFrame(base, d), flags));
            KernelOk(m, base) && SameKernelWalks(mem, m, base) && OnlyKernelFrames(mem, m, base)
  {
  }

  /** Changing the flags of a present directory entry. */
  lemma {:induction false} KernelReflag(mem: Memory, base: nat, d: nat, e: Entry)
    requires KernelOk(mem, base) && d < ENTRIES && Present(mem[KernelDir(base)][d])
    requires Present(e) && Writable(e) && !Large(e) && e.frame == mem[KernelDir(base)][d].frame
    ensures var m := Put(mem, KernelDir(base), d, e);
            KernelOk(m, base) && SameKernelWalks(mem, m, base) && OnlyKernelFrames(mem, m, base)
  {
  }

  /** Cutting off a vacant static table. */
  lemma {:induction false} KernelDetach(mem: Memory, base: nat, d: nat)
    requires KernelOk(mem, base) && d < ENTRIES && HasTable(d) && Vacant(mem[TableFrame(base, d)])
    ensures var m := Put(mem, KernelDir(base), d, ZERO);
            KernelOk(m, base) && SameKernelWalks(mem, m, base) && OnlyKernelFrames(mem, m, base)
  {
  }
}
