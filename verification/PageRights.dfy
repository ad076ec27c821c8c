/** What the entries on the way to a page allow.  A page is open to user mode, and writable, if every
    entry on the way says so.  The PAE format (section 4.6.1 of volume 3A of the Intel SDM) takes
    the entries of directory and table; the kernel keeps the same two bits in the user slots of its
    roots, and what follows holds whether these are taken too (`top`) or not. */
module PageRights {
  import opened PageTree
  import opened KernelHalf

  datatype Rights = Denied | Allows(user: bool, writable: bool)

  const ALL: Rights := Allows(true, true)

  /** What is left behind one more entry. */
  function Narrow(r: Rights, e: Entry): Rights {
    if r.Denied? || !Present(e) then Denied else Allows(r.user && ForUser(e), r.writable && Writable(e))
  }

  function RightsBelow(mem: Memory, dir: nat, d: nat, t: nat, r: Rights): Rights
    requires Tables(mem) && d < ENTRIES && t < ENTRIES
  {
    if dir >= |mem| || !Present(mem[dir][d]) then Denied
    else if Large(mem[dir][d]) then Narrow(r, mem[dir][d])
    else if mem[dir][d].frame >= |mem| then Denied
    else Narrow(Narrow(r, mem[dir][d]), mem[mem[dir][d].frame][t])
  }

  /** What the tables of a space allow on the page of root slot `i`, directory slot `d` and table
      slot `t`. */
  function Permission(mem: Memory, root: nat, i: nat, d: nat, t: nat, top: bool): Rights
    requires Tables(mem) && i < 4 && d < ENTRIES && t < ENTRIES
  {
    if root >= |mem| || !Present(mem[root][i]) then Denied
    else RightsBelow(mem, mem[root][i].frame, d, t, if top then Narrow(ALL, mem[root][i]) else ALL)
  }

  /** A page is denied exactly if it is not mapped. */
  lemma {:induction false} DeniedIsMiss(mem: Memory, root: nat, i: nat, d: nat, t: nat, top: bool)
    requires Tables(mem) && i < 4 && d < ENTRIES && t < ENTRIES
    ensures Permission(mem, root, i, d, t, top) == Denied <==> Walk(mem, root, i, d, t) == Miss
  {
  }

  /** What they would allow if the root's entry did not restrict, or that and the directory's. */
  function Widened(mem: Memory, root: nat, i: nat, d: nat, t: nat, top: bool, slot: bool, table: bool): Rights
    requires Tables(mem) && i < 4 && d < ENTRIES && t < ENTRIES
  {
    if root >= |mem| || !Present(mem[root][i]) then Denied
    else
      var r, dir := if top && !slot then Narrow(ALL, mem[root][i]) else ALL, mem[root][i].frame;
      if !table then RightsBelow(mem, dir, d, t, r)
      else if dir >= |mem| || !Present(mem[dir][d]) then Denied
      else if Large(mem[dir][d]) then r
      else if mem[dir][d].frame >= |mem| then Denied
      else Narrow(r, mem[mem[dir][d].frame][t])
  }

  /** The change of a map: its page is open to user mode and writable as asked; entries on its way no
      longer restrict the other pages behind them, and every other page is as it was. */
  ghost predicate Permitted(a: Memory, b: Memory, roots: map<nat, nat>, s0: nat, i0: nat, d0: nat, t0: nat,
                            writable: bool)
    requires Tables(a) && Tables(b)
  {
    forall s, i, d, t, top :: s in roots && 0 <= i < KERNEL_SLOT && 0 <= d < ENTRIES && 0 <= t < ENTRIES ==>
      Permission(b, roots[s], i, d, t, top) ==
      if s == s0 && i == i0 && d == d0 && t == t0 then Allows(true, writable)
      else Widened(a, roots[s], i, d, t, top, s == s0 && i == i0, s == s0 && i == i0 && d == d0)
  }

  /** The change of a refused map: at most the root's entry on its way no longer restricts. */
  ghost predicate Refused(a: Memory, b: Memory, roots: map<nat, nat>, s0: nat, i0: nat)
    requires Tables(a) && Tables(b)
  {
    forall s, i, d, t, top :: s in roots && 0 <= i < KERNEL_SLOT && 0 <= d < ENTRIES && 0 <= t < ENTRIES ==>
      Permission(b, roots[s], i, d, t, top) == Widened(a, roots[s], i, d, t, top, s == s0 && i == i0, false)
  }

  /** The change of an unmap: its page is denied and every other page is as it was. */
  ghost predicate Withdrawn(a: Memory, b: Memory, roots: map<nat, nat>, s0: nat, i0: nat, d0: nat, t0: nat)
    requires Tables(a) && Tables(b)
  {
    forall s, i, d, t, top :: s in roots && 0 <= i < KERNEL_SLOT && 0 <= d < ENTRIES && 0 <= t < ENTRIES ==>
      Permission(b, roots[s], i, d, t, top) ==
      if s == s0 && i == i0 && d == d0 && t == t0 then Denied else Permission(a, roots[s], i, d, t, top)
  }

  ghost predicate SameRights(a: Memory, b: Memory, roots: map<nat, nat>)
    requires Tables(a) && Tables(b)
  {
    forall s, i, d, t, top :: s in roots && 0 <= i < KERNEL_SLOT && 0 <= d < ENTRIES && 0 <= t < ENTRIES ==>
      Permission(b, roots[s], i, d, t, top) == Permission(a, roots[s], i, d, t, top)
  }

  /** Only the kernel's own space has entries that restrict: in every other space a map leaves every
      other page as it was. */
  lemma {:induction false} WidenedSame(mem: Memory, roots: map<nat, nat>, owner: map<nat, Owner>, kdir: nat, s: nat,
                                       i: nat, d: nat, t: nat, top: bool, slot: bool, table: bool)
    requires Forest(mem, roots, owner, kdir) && s in roots && s != 0
    requires i < KERNEL_SLOT && d < ENTRIES && t < ENTRIES
    ensures Widened(mem, roots[s], i, d, t, top, slot, table) == Permission(mem, roots[s], i, d, t, top)
  {
    Path(mem, roots, owner, kdir, s, i, d);
  }

  /** In the kernel's space a page can only gain, and only what its own entry allows; it gains
      nothing if the entries on the way were open. */
  lemma {:induction false} WidenedGains(mem: Memory, roots: map<nat, nat>, owner: map<nat, Owner>, kdir: nat, s: nat,
                                        i: nat, d: nat, t: nat, top: bool, slot: bool, table: bool)
    requires Forest(mem, roots, owner, kdir) && s in roots && i < KERNEL_SLOT && d < ENTRIES && t < ENTRIES
    ensures var p, w := Permission(mem, roots[s], i, d, t, top), Widened(mem, roots[s], i, d, t, top, slot, table);
      (w.Denied? <==> p.Denied?) &&
      (p.Allows? ==>
        (p.user ==> w.user) && (p.writable ==> w.writable) &&
        var dir := mem[roots[s]][i].frame;
        dir < |mem| && Present(mem[dir][d]) && mem[dir][d].frame < |mem| &&
        var e := mem[mem[dir][d].frame][t];
        (w.user ==> ForUser(e)) && (w.writable ==> Writable(e)) &&
        ((slot ==> ForUser(mem[roots[s]][i])) && (table ==> ForUser(mem[dir][d])) ==> w == p))
  {
    Path(mem, roots, owner, kdir, s, i, d);
  }

  // ------------------------------------------------------------------------------------
  // The kernel half
  // ------------------------------------------------------------------------------------

  /** What a kernel page allows in any space; the shared root entry does not restrict. */
  function KernelRights(mem: Memory, base: nat, d: nat, t: nat): Rights
    requires Tables(mem) && base + STATIC_FRAMES <= |mem| && d < ENTRIES && t < ENTRIES
  {
    RightsBelow(mem, KernelDir(base), d, t, ALL)
  }

  /** Every space has it. */
  lemma {:induction false} KernelRightsShared(mem: Memory, roots: map<nat, nat>, owner: map<nat, Owner>, base: nat,
                                              s: nat, d: nat, t: nat)
    requires Forest(mem, roots, owner, KernelDir(base)) && KernelOk(mem, base)
    requires s in roots && d < ENTRIES && t < ENTRIES
    ensures Permission(mem, roots[s], KERNEL_SLOT, d, t, false) == KernelRights(mem, base, d, t)
  {
    assert Placed(mem, roots, owner, KernelDir(base), roots[s]);
    assert Present(Entry(KernelDir(base), PRESENT)) by { JustPresent(); }
  }

  /** A kernel page is writable as its own entry says, and closed to user mode unless its entry and
      that of its table are open. */
  lemma {:induction false} KernelPageRights(mem: Memory, base: nat, d: nat, t: nat)
    requires KernelOk(mem, base) && d < ENTRIES && t < ENTRIES
    ensures match KernelWalk(mem, base, d, t)
            case Miss => KernelRights(mem, base, d, t) == Denied
            case Hit(_, flags) =>
              KernelRights(mem, base, d, t) ==
              Allows(flags & USER != 0 && ForUser(mem[KernelDir(base)][d]), flags & WRITABLE != 0)
  {
  }

  lemma {:induction false} JustPresent()
    ensures PRESENT & PRESENT != 0
  {
  }

  /** What a kernel page would allow if the directory's entry did not restrict. */
  function Unbarred(mem: Memory, base: nat, d: nat, t: nat): Rights
    requires Tables(mem) && base + STATIC_FRAMES <= |mem| && d < ENTRIES && t < ENTRIES
  {
    match KernelWalk(mem, base, d, t)
    case Miss => Denied
    case Hit(_, flags) => Allows(flags & USER != 0, flags & WRITABLE != 0)
  }

  /** The change of a kernel map: its page allows what the flags say.  If they open it to user mode,
      the directory's entry no longer restricts the other pages behind it.  Every other kernel page
      is as it was. */
  ghost predicate KernelPermitted(a: Memory, b: Memory, base: nat, d0: nat, t0: nat, flags: bv12)
    requires Tables(a) && Tables(b) && base + STATIC_FRAMES <= |a| == |b|
  {
    forall d, t :: 0 <= d < ENTRIES && 0 <= t < ENTRIES ==>
      KernelRights(b, base, d, t) ==
      if d == d0 && t == t0 then Allows(flags & USER != 0, flags & WRITABLE != 0)
      else if d == d0 && flags & USER != 0 then Unbarred(a, base, d, t)
      else KernelRights(a, base, d, t)
  }

  ghost predicate KernelWithdrawn(a: Memory, b: Memory, base: nat, d0: nat, t0: nat)
    requires Tables(a) && Tables(b) && base + STATIC_FRAMES <= |a| == |b|
  {
    forall d, t :: 0 <= d < ENTRIES && 0 <= t < ENTRIES ==>
      KernelRights(b, base, d, t) == if d == d0 && t == t0 then Denied else KernelRights(a, base, d, t)
  }

  /** Of the kernel directory only slot `d` changed, and it is open to user mode if it was or if
      `user` says so. */
  ghost predicate SlotOpened(a: Memory, b: Memory, base: nat, d: nat, user: bool)
    requires Tables(a) && Tables(b) && base + STATIC_FRAMES <= |a| == |b| && d < ENTRIES
  {
    (forall j :: 0 <= j < ENTRIES && j != d ==> b[KernelDir(base)][j] == a[KernelDir(base)][j]) &&
    (ForUser(b[KernelDir(base)][d]) <==> user || (Present(a[KernelDir(base)][d]) && ForUser(a[KernelDir(base)][d])))
  }

  lemma {:induction false} LeafBits(flags: bv12)
    ensures (PRESENT | flags) & USER == flags & USER && (PRESENT | flags) & WRITABLE == flags & WRITABLE
  {
  }

  lemma {:induction false} KernelMapRights(a: Memory, b: Memory, base: nat, d: nat, t: nat, frame: nat, flags: bv12)
    requires KernelOk(a, base) && KernelOk(b, base) && |a| == |b| && d < ENTRIES && t < ENTRIES
    requires OneKernelWalk(a, b, base, d, t, Hit(frame, PRESENT | flags))
    requires SlotOpened(a, b, base, d, flags & USER != 0)
    ensures KernelPermitted(a, b, base, d, t, flags)
  {
    LeafBits(flags);
    forall d2, t2 | 0 <= d2 < ENTRIES && 0 <= t2 < ENTRIES
      ensures KernelRights(b, base, d2, t2) ==
              if d2 == d && t2 == t then Allows(flags & USER != 0, flags & WRITABLE != 0)
              else if d2 == d && flags & USER != 0 then Unbarred(a, base, d2, t2)
              else KernelRights(a, base, d2, t2)
    {
      KernelPageRights(a, base, d2, t2);
      KernelPageRights(b, base, d2, t2);
    }
  }

  lemma {:induction false} KernelUnmapRights(a: Memory, b: Memory, base: nat, d: nat, t: nat)
    requires KernelOk(a, base) && KernelOk(b, base) && |a| == |b| && d < ENTRIES && t < ENTRIES
    requires OneKernelWalk(a, b, base, d, t, Miss)
    requires forall j :: 0 <= j < ENTRIES ==>
               b[KernelDir(base)][j] == a[KernelDir(base)][j] || !Present(b[KernelDir(base)][j])
    ensures KernelWithdrawn(a, b, base, d, t)
  {
    forall d2, t2 | 0 <= d2 < ENTRIES && 0 <= t2 < ENTRIES
      ensures KernelRights(b, base, d2, t2) == if d2 == d && t2 == t then Denied else KernelRights(a, base, d2, t2)
    {
      KernelPageRights(a, base, d2, t2);
      KernelPageRights(b, base, d2, t2);
    }
  }

  /** Updates in the kernel half change no right of a user page. */
  lemma {:induction false} UserRightsKept(a: Memory, b: Memory, roots: map<nat, nat>, owner: map<nat, Owner>, base: nat)
    requires Forest(a, roots, owner, KernelDir(base)) && Tables(b) && OnlyKernelFrames(a, b, base)
    requires forall f :: f in owner ==> !IsKernelFrame(base, f)
    ensures SameRights(a, b, roots)
  {
    forall s, i, d, t, top | s in roots && 0 <= i < KERNEL_SLOT && 0 <= d < ENTRIES && 0 <= t < ENTRIES
      ensures Permission(b, roots[s], i, d, t, top) == Permission(a, roots[s], i, d, t, top)
    {
      Path(a, roots, owner, KernelDir(base), s, i, d);
    }
  }

  /** And none of a kernel page follows from an update elsewhere. */
  lemma {:induction false} KernelRightsKept(a: Memory, b: Memory, base: nat, d: nat, t: nat)
    requires KernelOk(a, base) && Tables(b) && KernelFramesKept(a, b, base) && d < ENTRIES && t < ENTRIES
    ensures KernelRights(b, base, d, t) == KernelRights(a, base, d, t)
  {
  }
}
