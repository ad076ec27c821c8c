/** All address spaces together: the records of the spaces in use, the memory their tables lie
    in, and the separation of table frames from free frames. */
module AddressSpaces {
  import opened PageTree
  import opened KernelHalf
  import opened PageRights

  const PAGE_SIZE: nat := 4096
  const USER_BASE: nat := 0x0040_0000
  const KERNEL_VMA: nat := 0xC000_0000
  const DYNAMIC_BASE: nat := 0xF000_0000
  const DYNAMIC_LIMIT: nat := 0xFFC0_0000
  const MAX_SPACES: nat := 32
  const NODE_ANY: nat := 0xFF
  /** Frames that the direct map reaches. */
  const DIRECT_MAP_FRAMES: nat := 0x1_0000

  function PdptIndex(va: nat): nat { va / 0x4000_0000 }
  function DirectoryIndex(va: nat): nat { va / 0x20_0000 % ENTRIES }
  function TableIndex(va: nat): nat { va / 0x1000 % ENTRIES }

  /** Two addresses use the same slots exactly when they lie in the same page. */
  lemma {:induction false} SlotsIdentifyPage(a: nat, b: nat)
    ensures a / PAGE_SIZE == b / PAGE_SIZE <==>
            PdptIndex(a) == PdptIndex(b) && DirectoryIndex(a) == DirectoryIndex(b) && TableIndex(a) == TableIndex(b)
  {
    SlotsOfPage(a);
    SlotsOfPage(b);
  }

  lemma {:induction false} SlotsOfPage(a: nat)
    ensures a / PAGE_SIZE == PdptIndex(a) * 0x4_0000 + DirectoryIndex(a) * ENTRIES + TableIndex(a)
    ensures PdptIndex(a) == a / PAGE_SIZE / 0x4_0000
    ensures DirectoryIndex(a) == a / PAGE_SIZE / ENTRIES % ENTRIES
    ensures TableIndex(a) == a / PAGE_SIZE % ENTRIES
  {
    assert a / 0x1000 / 512 == a / 0x20_0000;
    assert a / 0x20_0000 / 512 == a / 0x4000_0000;
  }

  /** User addresses lie in the lower three root slots, and clear of the first two tables. */
  lemma {:induction false} UserSlots(va: nat)
    requires USER_BASE <= va < KERNEL_VMA
    ensures PdptIndex(va) < KERNEL_SLOT && DirectoryIndex(va) < ENTRIES && TableIndex(va) < ENTRIES
    ensures PdptIndex(va) == 0 ==> DirectoryIndex(va) >= 2
  {
  }

  lemma {:induction false} DynamicSlots(va: nat)
    requires DYNAMIC_BASE <= va < DYNAMIC_LIMIT
    ensures PdptIndex(va) == KERNEL_SLOT && IsDynamic(DirectoryIndex(va)) && TableIndex(va) < ENTRIES
  {
  }

  // ------------------------------------------------------------------------------------
  // The state of all spaces, as values
  // ------------------------------------------------------------------------------------

  /** The address a lookup gives: the page frame and the offset in the page. */
  datatype Physical = Unmapped | At(address: nat)

  function Resolve(l: Lookup, va: nat): Physical {
    match l
    case Miss => Unmapped
    case Hit(frame, _) => At(frame * PAGE_SIZE + va % PAGE_SIZE)
  }

  /** The boot-time structures that the kernel's own space keeps for good. */
  ghost predicate Pinned(owner: map<nat, Owner>, base: nat) {
    KernelRoot(base) in owner && owner[KernelRoot(base)] == RootOf(0) &&
    IdentityDir(base) in owner && owner[IdentityDir(base)] == DirOf(0, 0) &&
    IdentityTable(base, 0) in owner && owner[IdentityTable(base, 0)] == TableOf(0, 0, 0) &&
    IdentityTable(base, 1) in owner && owner[IdentityTable(base, 1)] == TableOf(0, 0, 1)
  }

  /** No frame is both free and in use for a table, and static frames are never free. */
  ghost predicate Separate(free: set<nat>, owner: map<nat, Owner>, base: nat) {
    (forall f :: f in free ==> f !in owner && !(base <= f < base + STATIC_FRAMES)) &&
    (forall f :: f in owner ==> !IsKernelFrame(base, f)) && Pinned(owner, base)
  }

  ghost predicate Inv(mem: Memory, roots: map<nat, nat>, owner: map<nat, Owner>, base: nat, free: set<nat>) {
    |mem| == DIRECT_MAP_FRAMES && Forest(mem, roots, owner, KernelDir(base)) && KernelOk(mem, base) &&
    Separate(free, owner, base) && 0 in roots && roots[0] == KernelRoot(base)
  }

  /** Frames move only between the free ones and the tables of space `s`: none is lost, none
      appears, and the tables of other spaces stay put. */
  ghost predicate Conserves(o: map<nat, Owner>, o': map<nat, Owner>, free: set<nat>, free': set<nat>, s: nat) {
    free' + o'.Keys == free + o.Keys &&
    (forall f :: f in o && o[f].s != s ==> f in o' && o'[f] == o[f]) &&
    (forall f :: f in o' && o'[f].s != s ==> f in o && o[f] == o'[f])
  }

  lemma {:induction false} ConservesTrans(o: map<nat, Owner>, o1: map<nat, Owner>, o2: map<nat, Owner>, free: set<nat>,
                                          free1: set<nat>, free2: set<nat>, s: nat)
    requires Conserves(o, o1, free, free1, s) && Conserves(o1, o2, free1, free2, s)
    ensures Conserves(o, o2, free, free2, s)
  {
  }

  /** The frames it takes to give a user page its own directory and table. */
  function Missing(mem: Memory, root: nat, i: nat, d: nat): nat
    requires Tables(mem) && root < |mem| && i < ENTRIES && d < ENTRIES
  {
    if !Present(mem[root][i]) || mem[root][i].frame >= |mem| then 2
    else if !Present(mem[mem[root][i].frame][d]) then 1
    else 0
  }

  /** What a change is measured between: memory, ownership and the free frames. */
  datatype Snap = Snap(mem: Memory, owner: map<nat, Owner>, free: set<nat>)

  /** A change on behalf of space `s` that no lookup shows: user half, kernel half and the
      other spaces' tables are as before, and frames are conserved. */
  ghost predicate Quiet(a: Snap, b: Snap, roots: map<nat, nat>, base: nat, s: nat) {
    Tables(a.mem) && Tables(b.mem) && SameWalks(a.mem, b.mem, roots) && KernelFramesKept(a.mem, b.mem, base) &&
    Conserves(a.owner, b.owner, a.free, b.free, s)
  }

  /** As `Quiet`, except that the lookup of one user slot of space `s` becomes `l`. */
  ghost predicate Changed(a: Snap, b: Snap, roots: map<nat, nat>, base: nat, s: nat, i: nat, d: nat, t: nat,
                          l: Lookup) {
    Tables(a.mem) && Tables(b.mem) && OneWalk(a.mem, b.mem, roots, s, i, d, t, l) &&
    KernelFramesKept(a.mem, b.mem, base) && Conserves(a.owner, b.owner, a.free, b.free, s)
  }

  /** The address that a space's tables give for a virtual address. */
  function Translate(mem: Memory, root: nat, va: nat): Physical
    requires Tables(mem) && va < 0x1_0000_0000
  {
    Resolve(Walk(mem, root, PdptIndex(va), DirectoryIndex(va), TableIndex(va)), va)
  }

  /** By address: after a change, every address in the changed page of that space resolves to the
      new frame plus its offset; every other user address of that or any other space, and every
      kernel address of any space, resolves as before. */
  lemma {:induction false} ChangedByAddress(a: Snap, b: Snap, roots: map<nat, nat>, base: nat, s: nat, va: nat,
                                            l: Lookup, s': nat, va': nat)
    requires Inv(a.mem, roots, a.owner, base, a.free) && Inv(b.mem, roots, b.owner, base, b.free)
    requires Changed(a, b, roots, base, s, PdptIndex(va), DirectoryIndex(va), TableIndex(va), l)
    requires USER_BASE <= va < KERNEL_VMA && s in roots && s' in roots && va' < 0x1_0000_0000
    ensures Translate(b.mem, roots[s'], va') ==
            if s' == s && va' / PAGE_SIZE == va / PAGE_SIZE then Resolve(l, va') else Translate(a.mem, roots[s'], va')
  {
    SlotsIdentifyPage(va, va');
    UserSlots(va);
    if PdptIndex(va') == KERNEL_SLOT {
      KernelKept(a.mem, b.mem, base);
      WalksAgree(a.mem, roots, a.owner, base, s', DirectoryIndex(va'), TableIndex(va'));
      WalksAgree(b.mem, roots, b.owner, base, s', DirectoryIndex(va'), TableIndex(va'));
    }
  }

  lemma {:induction false} QuietSelf(a: Snap, roots: map<nat, nat>, base: nat, s: nat)
    requires Tables(a.mem)
    ensures Quiet(a, a, roots, base, s)
  {
  }

  lemma {:induction false} QuietTrans(a: Snap, b: Snap, c: Snap, roots: map<nat, nat>, base: nat, s: nat)
    requires Quiet(a, b, roots, base, s) && Quiet(b, c, roots, base, s)
    ensures Quiet(a, c, roots, base, s)
  {
    ConservesTrans(a.owner, b.owner, c.owner, a.free, b.free, c.free, s);
  }

  lemma {:induction false} QuietThenChanged(a: Snap, b: Snap, c: Snap, roots: map<nat, nat>, base: nat, s: nat, i: nat,
                                            d: nat, t: nat, l: Lookup)
    requires Quiet(a, b, roots, base, s) && Changed(b, c, roots, base, s, i, d, t, l)
    ensures Changed(a, c, roots, base, s, i, d, t, l)
  {
    ConservesTrans(a.owner, b.owner, c.owner, a.free, b.free, c.free, s);
  }

  lemma {:induction false} ChangedThenQuiet(a: Snap, b: Snap, c: Snap, roots: map<nat, nat>, base: nat, s: nat, i: nat,
                                            d: nat, t: nat, l: Lookup)
    requires Changed(a, b, roots, base, s, i, d, t, l) && Quiet(b, c, roots, base, s)
    ensures Changed(a, c, roots, base, s, i, d, t, l)
  {
    ConservesTrans(a.owner, b.owner, c.owner, a.free, b.free, c.free, s);
  }

  lemma {:induction false} ChangedTwice(a: Snap, b: Snap, c: Snap, roots: map<nat, nat>, base: nat, s: nat, i: nat,
                                        d: nat, t: nat, l: Lookup, m: Lookup)
    requires Changed(a, b, roots, base, s, i, d, t, l) && Changed(b, c, roots, base, s, i, d, t, m)
    ensures Changed(a, c, roots, base, s, i, d, t, m)
  {
    ConservesTrans(a.owner, b.owner, c.owner, a.free, b.free, c.free, s);
  }

  /** Table frames are frames that the frame allocator manages. */
  ghost predicate OwnedBelow(owner: map<nat, Owner>, total: nat) {
    forall f :: f in owner ==> f < total
  }

  lemma {:induction false} OwnedBelowKept(o: map<nat, Owner>, o': map<nat, Owner>, free: set<nat>, free': set<nat>,
                                          s: nat, total: nat)
    requires Conserves(o, o', free, free', s) && OwnedBelow(o, total) && forall f :: f in free ==> f < total
    ensures OwnedBelow(o', total)
  {
    forall f | f in o' ensures f < total { assert f in free' + o'.Keys; }
  }

  lemma {:induction false} InvLeafWrite(mem: Memory, roots: map<nat, nat>, owner: map<nat, Owner>, base: nat,
                                        free: set<nat>, f: nat, t: nat, e: Entry)
    requires Inv(mem, roots, owner, base, free) && f in owner && owner[f].TableOf? && t < ENTRIES
    ensures Inv(Put(mem, f, t, e), roots, owner, base, free)
    ensures OneWalk(mem, Put(mem, f, t, e), roots, owner[f].s, owner[f].i, owner[f].d, t, LeafOf(e))
    ensures KernelFramesKept(mem, Put(mem, f, t, e), base)
  {
    LeafWrite(mem, roots, owner, KernelDir(base), f, t, e);
    KernelKept(mem, Put(mem, f, t, e), base);
  }

  lemma {:induction false} InvReflag(mem: Memory, roots: map<nat, nat>, owner: map<nat, Owner>, base: nat,
                                     free: set<nat>, f: nat, k: nat)
    requires Inv(mem, roots, owner, base, free) && f in owner && !owner[f].TableOf? && k < ENTRIES
    requires f < |mem| && Present(mem[f][k]) && (owner[f].RootOf? ==> k < KERNEL_SLOT)
    ensures var m := Put(mem, f, k, mem[f][k].(flags := mem[f][k].flags | USER | WRITABLE));
            Inv(m, roots, owner, base, free) && SameWalks(mem, m, roots) && KernelFramesKept(mem, m, base)
  {
    var e := mem[f][k].(flags := mem[f][k].flags | USER | WRITABLE);
    KeepsBits(mem[f][k].flags);
    Reflag(mem, roots, owner, KernelDir(base), f, k, e);
    KernelKept(mem, Put(mem, f, k, e), base);
  }

  lemma {:induction false} KeepsBits(flags: bv12)
    ensures ((flags | USER | WRITABLE) & PRESENT) == (flags & PRESENT)
    ensures ((flags | USER | WRITABLE) & LARGE) == (flags & LARGE)
    ensures (flags | USER | WRITABLE) & USER != 0 && (flags | USER | WRITABLE) & WRITABLE != 0
  {
  }

  const TABLE_FLAGS: bv12 := PRESENT | WRITABLE | USER

  lemma {:induction false} TableFlags()
    ensures TABLE_FLAGS & PRESENT != 0 && TABLE_FLAGS & LARGE == 0
    ensures TABLE_FLAGS & USER != 0 && TABLE_FLAGS & WRITABLE != 0
  {
  }

  /** A present entry, opened to user mode. */
  function Granted(mem: Memory, f: nat, k: nat): (r: Memory)
    requires Tables(mem) && f < |mem| && k < ENTRIES
    ensures Tables(r) && |r| == |mem|
  {
    var e := mem[f][k];
    if e.flags & USER == 0 then Put(mem, f, k, e.(flags := e.flags | USER | WRITABLE)) else mem
  }

  lemma {:induction false} InvGrant(mem: Memory, roots: map<nat, nat>, owner: map<nat, Owner>, base: nat,
                                    free: set<nat>, f: nat, k: nat)
    requires Inv(mem, roots, owner, base, free) && f in owner && !owner[f].TableOf? && k < ENTRIES
    requires f < |mem| && Present(mem[f][k]) && (owner[f].RootOf? ==> k < KERNEL_SLOT)
    ensures var m := Granted(mem, f, k);
            Inv(m, roots, owner, base, free) && SameWalks(mem, m, roots) && KernelFramesKept(mem, m, base)
  {
    InvReflag(mem, roots, owner, base, free, f, k);
  }

  lemma {:induction false} InvAddDir(mem: Memory, roots: map<nat, nat>, owner: map<nat, Owner>, base: nat,
                                     free: set<nat>, s: nat, i: nat, g: nat)
    requires Inv(mem, roots, owner, base, free) && s in roots && i < KERNEL_SLOT && roots[s] < |mem|
    requires !Present(mem[roots[s]][i]) && g in free && g < |mem|
    ensures var m, o := WithDir(mem, roots[s], i, g, TABLE_FLAGS), owner[g := DirOf(s, i)];
            Inv(m, roots, o, base, free - {g}) && SameWalks(mem, m, roots) && KernelFramesKept(mem, m, base) &&
            Conserves(owner, o, free, free - {g}, s)
  {
    TableFlags();
    AddDir(mem, roots, owner, KernelDir(base), s, i, g, TABLE_FLAGS);
    KernelKept(mem, WithDir(mem, roots[s], i, g, TABLE_FLAGS), base);
  }

  lemma {:induction false} InvAddTable(mem: Memory, roots: map<nat, nat>, owner: map<nat, Owner>, base: nat,
                                       free: set<nat>, dir: nat, d: nat, g: nat)
    requires Inv(mem, roots, owner, base, free) && dir in owner && owner[dir].DirOf? && d < ENTRIES
    requires dir < |mem| && !Present(mem[dir][d]) && g in free && g < |mem|
    ensures var m, o := WithDir(mem, dir, d, g, TABLE_FLAGS), owner[g := TableOf(owner[dir].s, owner[dir].i, d)];
            Inv(m, roots, o, base, free - {g}) && SameWalks(mem, m, roots) && KernelFramesKept(mem, m, base) &&
            Conserves(owner, o, free, free - {g}, owner[dir].s)
  {
    TableFlags();
    AddTable(mem, roots, owner, KernelDir(base), dir, d, g, TABLE_FLAGS);
    KernelKept(mem, WithDir(mem, dir, d, g, TABLE_FLAGS), base);
  }

  lemma {:induction false} InvDropTable(mem: Memory, roots: map<nat, nat>, owner: map<nat, Owner>, base: nat,
                                        free: set<nat>, dir: nat, d: nat)
    requires Inv(mem, roots, owner, base, free) && dir in owner && owner[dir].DirOf? && d < ENTRIES && dir < |mem|
    requires Present(mem[dir][d]) && mem[dir][d].frame < |mem| && Vacant(mem[mem[dir][d].frame])
    requires owner[dir].i == 0 ==> d >= 2
    ensures var m, f := Put(mem, dir, d, ZERO), mem[dir][d].frame;
            Inv(m, roots, owner - {f}, base, free + {f}) && SameWalks(mem, m, roots) &&
            KernelFramesKept(mem, m, base) &&
            Conserves(owner, owner - {f}, free, free + {f}, owner[dir].s)
  {
    DropTable(mem, roots, owner, KernelDir(base), dir, d);
    KernelKept(mem, Put(mem, dir, d, ZERO), base);
    assert Placed(mem, roots, owner, KernelDir(base), dir);
    TableNotPinned(mem[dir][d].frame, owner, base);
  }

  /** A table frame that is not pinned is not static at all. */
  lemma {:induction false} TableNotPinned(f: nat, owner: map<nat, Owner>, base: nat)
    requires Pinned(owner, base) && f in owner && !IsKernelFrame(base, f)
    ensures owner[f] !in {RootOf(0), DirOf(0, 0), TableOf(0, 0, 0), TableOf(0, 0, 1)} ==>
              !(base <= f < base + STATIC_FRAMES)
  {
    if base <= f < base + 4 {
      assert f == base || f == base + 1 || f == base + 2 || f == base + 3;
    }
  }

  lemma {:induction false} InvDropDir(mem: Memory, roots: map<nat, nat>, owner: map<nat, Owner>, base: nat,
                                      free: set<nat>, s: nat, i: nat)
    requires Inv(mem, roots, owner, base, free) && HasDir(mem, roots, s, i) && Vacant(mem[DirFrame(mem, roots, s, i)])
    ensures var m, f := Put(mem, roots[s], i, ZERO), DirFrame(mem, roots, s, i);
            Inv(m, roots, owner - {f}, base, free + {f}) && SameWalks(mem, m, roots) &&
            KernelFramesKept(mem, m, base) &&
            Conserves(owner, owner - {f}, free, free + {f}, s)
  {
    var f := DirFrame(mem, roots, s, i);
    DropDir(mem, roots, owner, KernelDir(base), s, i);
    KernelKept(mem, Put(mem, roots[s], i, ZERO), base);
    Path(mem, roots, owner, KernelDir(base), s, i, 0);
    assert Placed(mem, roots, owner, KernelDir(base), IdentityTable(base, 0));
    assert f != IdentityDir(base);
    TableNotPinned(f, owner, base);
  }

  /** The tables that boot prepares: an identity map of the first 4 MiB, the direct map of the
      first 256 MiB in the kernel half, and empty dynamic tables. */
  function BootEntry(base: nat, f: nat, k: nat): Entry {
    var flags := PRESENT | WRITABLE;
    if f == KernelRoot(base) then
      if k == 0 then Entry(IdentityDir(base), PRESENT)
      else if k == KERNEL_SLOT then Entry(KernelDir(base), PRESENT)
      else ZERO
    else if f == IdentityDir(base) then if k < 2 then Entry(IdentityTable(base, k), flags) else ZERO
    else if f == IdentityTable(base, 0) then Entry(k, flags)
    else if f == IdentityTable(base, 1) then Entry(ENTRIES + k, flags)
    else if f == KernelDir(base) then if k < DIRECT_MAP_TABLES then Entry(TableFrame(base, k), flags) else ZERO
    else if base + 5 <= f < base + 5 + DIRECT_MAP_TABLES then Entry((f - base - 5) * ENTRIES + k, flags)
    else ZERO
  }

  function BootMemory(base: nat): Memory {
    seq(DIRECT_MAP_FRAMES, f requires 0 <= f => seq(ENTRIES, k requires 0 <= k => BootEntry(base, f, k)))
  }

  function BootOwner(base: nat): map<nat, Owner> {
    map[KernelRoot(base) := RootOf(0), IdentityDir(base) := DirOf(0, 0),
        IdentityTable(base, 0) := TableOf(0, 0, 0), IdentityTable(base, 1) := TableOf(0, 0, 1)]
  }

  lemma {:induction false} BootMemoryAt(base: nat, f: nat, k: nat)
    requires f < DIRECT_MAP_FRAMES && k < ENTRIES
    ensures Tables(BootMemory(base)) && |BootMemory(base)| == DIRECT_MAP_FRAMES
    ensures BootMemory(base)[f][k] == BootEntry(base, f, k)
  {
  }

  lemma {:induction false} BootFlags()
    ensures (PRESENT | WRITABLE) & PRESENT != 0 && (PRESENT | WRITABLE) & LARGE == 0 && PRESENT & PRESENT != 0
    ensures (PRESENT | WRITABLE) & WRITABLE != 0 && PRESENT & USER == 0
    ensures !Present(ZERO)
  {
  }

  lemma {:induction false} BootPlaced(base: nat, f: nat)
    requires base + STATIC_FRAMES <= DIRECT_MAP_FRAMES && f in BootOwner(base)
    ensures Tables(BootMemory(base)) && f < |BootMemory(base)|
    ensures Placed(BootMemory(base), map[0 := KernelRoot(base)], BootOwner(base), KernelDir(base), f)
  {
    var mem := BootMemory(base);
    BootFlags();
    forall k | 0 <= k < ENTRIES ensures mem[KernelRoot(base)][k] == BootEntry(base, KernelRoot(base), k) {}
    forall k | 0 <= k < ENTRIES ensures mem[IdentityDir(base)][k] == BootEntry(base, IdentityDir(base), k) {}
    assert f == KernelRoot(base) || f == IdentityDir(base) || f == IdentityTable(base, 0) ||
      f == IdentityTable(base, 1);
  }

  /** The boot state satisfies the invariant. */
  lemma {:induction false} BootInv(base: nat, free: set<nat>)
    requires base + STATIC_FRAMES <= DIRECT_MAP_FRAMES
    requires forall f :: f in free ==> !(base <= f < base + STATIC_FRAMES)
    ensures Inv(BootMemory(base), map[0 := KernelRoot(base)], BootOwner(base), base, free)
  {
    BootKernelOk(base);
    forall f | f in BootOwner(base)
      ensures f < |BootMemory(base)|
      ensures Placed(BootMemory(base), map[0 := KernelRoot(base)], BootOwner(base), KernelDir(base), f)
    {
      BootPlaced(base, f);
    }
  }

  lemma {:induction false} BootKernelOk(base: nat)
    requires base + STATIC_FRAMES <= DIRECT_MAP_FRAMES
    ensures KernelOk(BootMemory(base), base)
  {
    BootFlags();
    forall d | 0 <= d < ENTRIES ensures BootMemory(base)[KernelDir(base)][d] == BootEntry(base, KernelDir(base), d) {}
  }

  lemma {:induction false} InvAddRoot(mem: Memory, roots: map<nat, nat>, owner: map<nat, Owner>, base: nat,
                                      free: set<nat>, s: nat, g: nat)
    requires Inv(mem, roots, owner, base, free) && s !in roots && g in free && g < |mem|
    ensures var m, o := WithRoot(mem, g, KernelDir(base)), owner[g := RootOf(s)];
            Inv(m, roots[s := g], o, base, free - {g}) && SameWalks(mem, m, roots) && KernelFramesKept(mem, m, base) &&
            Conserves(owner, o, free, free - {g}, s)
  {
    AddRoot(mem, roots, owner, KernelDir(base), s, g);
    KernelKept(mem, WithRoot(mem, g, KernelDir(base)), base);
  }

  /** A space other than the kernel's can be forgotten; its frames, and frames its pages map
      that are not tables, may then be free. */
  lemma {:induction false} InvDropSpace(mem: Memory, roots: map<nat, nat>, owner: map<nat, Owner>, base: nat,
                                        free: set<nat>, s: nat, leaves: set<nat>)
    requires Inv(mem, roots, owner, base, free) && s in roots && s != 0
    requires forall f :: f in leaves ==> f !in owner && !(base <= f < base + STATIC_FRAMES)
    ensures Inv(mem, roots - {s}, owner - FramesOf(owner, s), base, free + FramesOf(owner, s) + leaves)
  {
    DropSpace(mem, roots, owner, KernelDir(base), s);
    forall f | f in FramesOf(owner, s) ensures !(base <= f < base + STATIC_FRAMES) { TableNotPinned(f, owner, base); }
  }

  /** None of the frames is used for a table. */
  ghost predicate Loose(frames: set<nat>, owner: map<nat, Owner>, base: nat) {
    forall f :: f in frames ==> f !in owner && !(base <= f < base + STATIC_FRAMES)
  }

  /** A frame that is taken away from the free ones, or given back without being in use. */
  lemma {:induction false} InvFree(mem: Memory, roots: map<nat, nat>, owner: map<nat, Owner>, base: nat, free: set<nat>,
                                   f: nat)
    requires Inv(mem, roots, owner, base, free)
    ensures Inv(mem, roots, owner, base, free - {f})
    ensures f !in owner && !(base <= f < base + STATIC_FRAMES) ==> Inv(mem, roots, owner, base, free + {f})
  {
  }

  lemma {:induction false} InvKernel(mem: Memory, m: Memory, roots: map<nat, nat>, owner: map<nat, Owner>, base: nat,
                                     free: set<nat>)
    requires Inv(mem, roots, owner, base, free) && KernelOk(m, base) && OnlyKernelFrames(mem, m, base)
    ensures Inv(m, roots, owner, base, free) && SameWalks(mem, m, roots)
  {
    ForestKept(mem, m, roots, owner, base);
  }

  // ------------------------------------------------------------------------------------
  // The tables in memory and the space records
  // ------------------------------------------------------------------------------------

  datatype Space = Space(inUse: bool, root: nat, node: nat)

  /** The roots of the spaces in use. */
  function RootsOf(spaces: seq<Space>): map<nat, nat> {
    map s | 0 <= s < |spaces| && spaces[s].inUse :: spaces[s].root
  }

  class PageTables {
    /** First frame of the statically placed tables. */
    const base: nat
    /** Physical memory, one table per frame. */
    var mem: Memory
    var spaces: seq<Space>
    var current: nat
    ghost var owner: map<nat, Owner>

    ghost function Roots(): map<nat, nat>
      reads this`spaces
    {
      RootsOf(spaces)
    }

    ghost function At(free: set<nat>): Snap
      reads this`mem, this`owner
    {
      Snap(mem, owner, free)
    }

    /** The tables are in order while exactly the frames in `free` are free. */
    ghost predicate Valid(free: set<nat>)
      reads this
    {
      |spaces| == MAX_SPACES && current < MAX_SPACES && spaces[current].inUse &&
      Inv(mem, Roots(), owner, base, free)
    }

    /** Boot: the kernel's own space is the only one and is current. */
    constructor (base: nat, ghost free: set<nat>)
      requires base + STATIC_FRAMES <= DIRECT_MAP_FRAMES
      requires forall f :: f in free ==> !(base <= f < base + STATIC_FRAMES)
      ensures Valid(free) && this.base == base && Roots() == map[0 := KernelRoot(base)]
      ensures owner == BootOwner(base) && mem == BootMemory(base)
    {
      this.base := base;
      mem := BootMemory(base);
      spaces := BootSpaces(base, NODE_ANY);
      current := 0;
      owner := BootOwner(base);
      BootInv(base, free);
    }

    /** Clears all entries of the table in a frame. */
    method WipeTable(f: nat)
      requires Tables(mem) && f < |mem|
      modifies this`mem
      ensures mem == Wipe(old(mem), f)
    {
      for k := 0 to ENTRIES
        invariant Tables(mem) && |mem| == |old(mem)|
        invariant forall g :: 0 <= g < |mem| && g != f ==> mem[g] == old(mem)[g]
        invariant forall j :: 0 <= j < k ==> mem[f][j] == ZERO
      {
        mem := Put(mem, f, k, ZERO);
      }
      assert mem[f] == EmptyTable();
      assert mem == Wipe(old(mem), f);
    }

    method HasPresentEntries(table: seq<Entry>) returns (r: bool)
      ensures r <==> !Vacant(table)
    {
      for k := 0 to |table|
        invariant forall j :: 0 <= j < k ==> !Present(table[j])
      {
        if Present(table[k]) {
          return true;
        }
      }
      return false;
    }

    /** Hangs a fresh directory into a vacant user root slot. */
    method HangDirectory(s: nat, i: nat, g: nat, ghost free: set<nat>)
      requires Valid(free) && s in Roots() && i < KERNEL_SLOT && g in free && g < |mem|
      requires spaces[s].root < |mem| && spaces[s].root in owner && !Present(mem[spaces[s].root][i])
      modifies this`mem, this`owner
      ensures Valid(free - {g}) && g in owner && owner[g] == DirOf(s, i) && g < |mem| && Vacant(mem[g])
      ensures Quiet(old(At(free)), At(free - {g}), Roots(), base, s)
      ensures owner == old(owner)[g := DirOf(s, i)] && mem == WithDir(old(mem), spaces[s].root, i, g, TABLE_FLAGS)
    {
      InvAddDir(mem, Roots(), owner, base, free, s, i, g);
      WipeTable(g);
      assert Vacant(mem[g]) by { BootFlags(); }
      mem := Put(mem, spaces[s].root, i, Entry(g, TABLE_FLAGS));
      owner := owner[g := DirOf(s, i)];
    }

    /** Hangs a fresh table into a vacant directory slot. */
    method HangTable(dir: nat, d: nat, g: nat, ghost free: set<nat>)
      requires Valid(free) && dir in owner && owner[dir].DirOf? && d < ENTRIES && g in free && g < |mem|
      requires dir < |mem| && !Present(mem[dir][d])
      modifies this`mem, this`owner
      ensures Valid(free - {g})
      ensures Quiet(old(At(free)), At(free - {g}), Roots(), base, old(owner)[dir].s)
      ensures owner == old(owner)[g := TableOf(old(owner)[dir].s, old(owner)[dir].i, d)]
      ensures mem == WithDir(old(mem), dir, d, g, TABLE_FLAGS)
    {
      InvAddTable(mem, Roots(), owner, base, free, dir, d, g);
      WipeTable(g);
      mem := Put(mem, dir, d, Entry(g, TABLE_FLAGS));
      owner := owner[g := TableOf(owner[dir].s, owner[dir].i, d)];
    }

    /** Opens a present upper-level entry to user mode. */
    method GrantUser(f: nat, k: nat, ghost free: set<nat>)
      requires Valid(free) && f in owner && !owner[f].TableOf? && k < ENTRIES
      requires f < |mem| && Present(mem[f][k]) && (owner[f].RootOf? ==> k < KERNEL_SLOT)
      modifies this`mem
      ensures Valid(free) && Quiet(old(At(free)), At(free), Roots(), base, owner[f].s)
      ensures mem == Granted(old(mem), f, k)
    {
      InvGrant(mem, Roots(), owner, base, free, f, k);
      var e := mem[f][k];
      if e.flags & USER == 0 {
        mem := Put(mem, f, k, e.(flags := e.flags | USER | WRITABLE));
      }
    }

    /** Cuts off a table that has become vacant; its frame is then free. */
    method CutTable(dir: nat, d: nat, ghost free: set<nat>) returns (f: nat)
      requires Valid(free) && dir in owner && owner[dir].DirOf? && d < ENTRIES && dir < |mem|
      requires Present(mem[dir][d]) && mem[dir][d].frame < |mem| && Vacant(mem[mem[dir][d].frame])
      requires owner[dir].i == 0 ==> d >= 2
      modifies this`mem, this`owner
      ensures Valid(free + {f}) && f == old(mem)[dir][d].frame && f !in owner && mem == Put(old(mem), dir, d, ZERO)
      ensures Quiet(old(At(free)), At(free + {f}), Roots(), base, old(owner)[dir].s)
      ensures dir in owner && owner == old(owner) - {f}
    {
      assert Placed(mem, Roots(), owner, KernelDir(base), dir);
      InvDropTable(mem, Roots(), owner, base, free, dir, d);
      f := mem[dir][d].frame;
      mem := Put(mem, dir, d, ZERO);
      owner := owner - {f};
    }

    /** Cuts off a directory that has become vacant; its frame is then free. */
    method CutDirectory(s: nat, i: nat, ghost free: set<nat>) returns (f: nat)
      requires Valid(free) && HasDir(mem, Roots(), s, i) && Vacant(mem[DirFrame(mem, Roots(), s, i)])
      modifies this`mem, this`owner
      ensures Valid(free + {f}) && f == old(DirFrame(mem, Roots(), s, i)) && f < |mem| && owner == old(owner) - {f}
      ensures mem == Put(old(mem), spaces[s].root, i, ZERO)
      ensures Quiet(old(At(free)), At(free + {f}), Roots(), base, s)
    {
      InvDropDir(mem, Roots(), owner, base, free, s, i);
      f := mem[spaces[s].root][i].frame;
      mem := Put(mem, spaces[s].root, i, ZERO);
      owner := owner - {f};
    }

    /** Fills the first free space record with a root for a fresh frame, or fails when all
        records are taken. */
    method AddSpace(s: nat, g: nat, node: nat, ghost free: set<nat>)
      requires Valid(free) && s < MAX_SPACES && !spaces[s].inUse && g in free && g < |mem|
      modifies this`mem, this`owner, this`spaces
      ensures Valid(free - {g}) && Roots() == old(Roots())[s := g] && spaces[s].node == node
      ensures Quiet(old(At(free)), At(free - {g}), old(Roots()), base, s)
      ensures FramesOf(owner, s) == {g}
      ensures forall i, d, t :: 0 <= i < KERNEL_SLOT && 0 <= d < ENTRIES && 0 <= t < ENTRIES ==>
          Walk(mem, g, i, d, t) == Miss
    {
      NoFrames(mem, Roots(), owner, KernelDir(base), s);
      InvAddRoot(mem, Roots(), owner, base, free, s, g);
      WipeTable(g);
      mem := Put(mem, g, KERNEL_SLOT, Entry(KernelDir(base), PRESENT));
      assert mem == WithRoot(old(mem), g, KernelDir(base));
      spaces := spaces[s := Space(true, g, node)];
      RootsUpdate(old(spaces), s, Space(true, g, node));
      owner := owner[g := RootOf(s)];
      forall i, d, t | 0 <= i < KERNEL_SLOT && 0 <= d < ENTRIES && 0 <= t < ENTRIES
        ensures Walk(mem, g, i, d, t) == Miss
      {
        NewRootIsEmpty(old(mem), g, KernelDir(base), i, d, t);
      }
    }

    /** Clears the record of a space whose frames have been released. */
    method Forget(s: nat, ghost free: set<nat>, ghost leaves: set<nat>)
      requires Valid(free) && s in Roots() && s != 0 && s != current
      requires forall f :: f in leaves ==> f !in owner && !(base <= f < base + STATIC_FRAMES)
      modifies this`spaces, this`owner
      ensures Valid(free + FramesOf(old(owner), s) + leaves)
      ensures Roots() == old(Roots()) - {s} && owner == old(owner) - FramesOf(old(owner), s)
    {
      InvDropSpace(mem, Roots(), owner, base, free, s, leaves);
      RootsUpdate(spaces, s, Space(false, 0, NODE_ANY));
      spaces := spaces[s := Space(false, 0, NODE_ANY)];
      owner := owner - FramesOf(owner, s);
    }

    /** Maps a page of the dynamic kernel range, hanging in its static table if need be. */
    method MapKernel(d: nat, t: nat, frame: nat, flags: bv12, ghost free: set<nat>)
      requires Valid(free) && d < ENTRIES && t < ENTRIES && IsDynamic(d)
      modifies this`mem
      ensures Valid(free) && SameWalks(old(mem), mem, Roots())
      ensures OneKernelWalk(old(mem), mem, base, d, t, Hit(frame, PRESENT | flags))
      ensures KernelPermitted(old(mem), mem, base, d, t, flags) && SameRights(old(mem), mem, Roots())
    {
      HangKernelTable(d, flags & USER != 0, free);
      AttachFlags(flags);
      WriteKernelLeaf(d, t, Entry(frame, PRESENT | flags), free);
      KernelMapRights(old(mem), mem, base, d, t, frame, flags);
      UserRightsKept(old(mem), mem, Roots(), owner, base);
    }

    /** Hangs in the static table of a slot unless it is, and opens it to user mode if asked to. */
    method HangKernelTable(d: nat, user: bool, ghost free: set<nat>)
      requires Valid(free) && d < ENTRIES && IsDynamic(d)
      modifies this`mem
      ensures Valid(free) && SameWalks(old(mem), mem, Roots()) && OnlyKernelFrames(old(mem), mem, base)
      ensures Present(mem[KernelDir(base)][d]) && SameKernelWalks(old(mem), mem, base)
      ensures SlotOpened(old(mem), mem, base, d, user)
    {
      var table := TableFrame(base, d);
      var pde := mem[KernelDir(base)][d];
      if !Present(pde) {
        var pdeFlags := PRESENT | WRITABLE | (if user then USER else 0);
        SlotFlags(user);
        KernelAttach(mem, base, d, pdeFlags);
        WipeTable(table);
        mem := Put(mem, KernelDir(base), d, Entry(table, pdeFlags));
        InvKernel(old(mem), mem, Roots(), owner, base, free);
      } else if user && pde.flags & USER == 0 {
        KeepsBits(pde.flags);
        KernelReflag(mem, base, d, pde.(flags := pde.flags | USER | WRITABLE));
        mem := Put(mem, KernelDir(base), d, pde.(flags := pde.flags | USER | WRITABLE));
        InvKernel(old(mem), mem, Roots(), owner, base, free);
      }
    }

    method WriteKernelLeaf(d: nat, t: nat, e: Entry, ghost free: set<nat>)
      requires Valid(free) && d < ENTRIES && t < ENTRIES && HasTable(d) && Present(mem[KernelDir(base)][d])
      modifies this`mem
      ensures Valid(free) && SameWalks(old(mem), mem, Roots())
      ensures OneKernelWalk(old(mem), mem, base, d, t, LeafOf(e))
      ensures mem == Put(old(mem), TableFrame(base, d), t, e)
    {
      KernelLeafWrite(mem, base, d, t, e);
      mem := Put(mem, TableFrame(base, d), t, e);
      InvKernel(old(mem), mem, Roots(), owner, base, free);
    }

    /** Unmaps a page of the dynamic kernel range and cuts off its table once vacant. */
    method UnmapKernel(d: nat, t: nat, ghost free: set<nat>)
      requires Valid(free) && d < ENTRIES && t < ENTRIES && IsDynamic(d)
      modifies this`mem
      ensures Valid(free) && SameWalks(old(mem), mem, Roots())
      ensures OneKernelWalk(old(mem), mem, base, d, t, Miss)
      ensures KernelWithdrawn(old(mem), mem, base, d, t) && SameRights(old(mem), mem, Roots())
    {
      var table := TableFrame(base, d);
      if !Present(mem[KernelDir(base)][d]) || !Present(mem[table][t]) {
        return;
      }
      WriteKernelLeaf(d, t, ZERO, free);
      DetachIfVacant(d, free);
      KernelUnmapRights(old(mem), mem, base, d, t);
      UserRightsKept(old(mem), mem, Roots(), owner, base);
    }

    /** Cuts off a static table that has no present entry left. */
    method DetachIfVacant(d: nat, ghost free: set<nat>)
      requires Valid(free) && d < ENTRIES && HasTable(d)
      modifies this`mem
      ensures Valid(free) && SameWalks(old(mem), mem, Roots()) && SameKernelWalks(old(mem), mem, base)
      ensures mem == old(mem) || mem == Put(old(mem), KernelDir(base), d, ZERO)
    {
      var used := HasPresentEntries(mem[TableFrame(base, d)]);
      if !used {
        KernelDetach(mem, base, d);
        mem := Put(mem, KernelDir(base), d, ZERO);
        InvKernel(old(mem), mem, Roots(), owner, base, free);
      }
    }

    /** Writes one entry of a last-level table. */
    method WriteLeaf(f: nat, t: nat, e: Entry, ghost free: set<nat>)
      requires Valid(free) && f in owner && owner[f].TableOf? && t < ENTRIES
      modifies this`mem
      ensures Valid(free) && mem == Put(old(mem), f, t, e)
      ensures Changed(old(At(free)), At(free), Roots(), base, owner[f].s, owner[f].i, owner[f].d, t, LeafOf(e))
    {
      InvLeafWrite(mem, Roots(), owner, base, free, f, t, e);
      mem := Put(mem, f, t, e);
    }
  }

  lemma {:induction false} SlotFlags(user: bool)
    ensures var f := PRESENT | WRITABLE | (if user then USER else 0);
            f & PRESENT != 0 && f & LARGE == 0 && f & WRITABLE != 0 && (f & USER != 0 <==> user)
  {
  }

  lemma {:induction false} AttachFlags(flags: bv12)
    ensures (PRESENT | flags) & PRESENT != 0
  {
  }

  lemma {:induction false} RootsUpdate(spaces: seq<Space>, s: nat, r: Space)
    requires s < |spaces|
    ensures RootsOf(spaces[s := r]) == if r.inUse then RootsOf(spaces)[s := r.root] else RootsOf(spaces) - {s}
  {
  }

  /** A space that is not in use owns nothing. */
  lemma {:induction false} NoFrames(mem: Memory, roots: map<nat, nat>, owner: map<nat, Owner>, kdir: nat, s: nat)
    requires Forest(mem, roots, owner, kdir) && s !in roots
    ensures FramesOf(owner, s) == {}
  {
    forall f | f in owner ensures owner[f].s != s { assert Placed(mem, roots, owner, kdir, f); }
  }

  function BootSpaces(base: nat, node: nat): (r: seq<Space>)
    ensures |r| == MAX_SPACES && r[0] == Space(true, KernelRoot(base), node)
    ensures RootsOf(r) == map[0 := KernelRoot(base)]
  {
    [Space(true, KernelRoot(base), node)] + seq(MAX_SPACES - 1, _ => Space(false, 0, node))
  }
}
