/** PAE address spaces: mapping and unmapping user pages, creating and destroying spaces, and
    the kernel page allocator, over the frame allocator and the tree of kernel ranges. */
module Paging {
  import opened PageTree
  import opened KernelHalf
  import opened PageRights
  import opened AddressSpaces
  import opened TableUse
  import opened Teardown
  import opened Permissions
  import Pmm

  /** Always true; see `Paging.Sealed`. */
  ghost predicate Open(k: int) { true }

  class Paging {
    const pmm: Pmm.Pmm
    const tables: PageTables

    /** The frame allocator's books are in order.  Written behind `Open` so that a proof that
        only passes this on does not look inside; `assert Open(0)` looks inside. */
    ghost predicate Sealed()
      reads pmm, pmm.bitmap, pmm.bitmap.bytes
    {
      pmm.totalFrames <= |pmm.bitmap.bits| && forall k: int {:trigger Open(k)} :: Open(k) ==> pmm.Valid()
    }

    ghost function Free(): set<nat>
      requires pmm.totalFrames <= |pmm.bitmap.bits|
      reads pmm, pmm.bitmap
    {
      pmm.FreeSet()
    }

    ghost function Roots(): map<nat, nat>
      reads tables
    {
      tables.Roots()
    }

    ghost function Now(): Snap
      requires pmm.totalFrames <= |pmm.bitmap.bits|
      reads pmm, pmm.bitmap, tables
    {
      tables.At(Free())
    }

    ghost predicate Valid()
      reads pmm, pmm.bitmap, pmm.bitmap.bytes, tables
    {
      Sealed() && tables.Valid(Free()) && OwnedBelow(tables.owner, pmm.totalFrames)
    }

    constructor (pmm: Pmm.Pmm, base: nat)
      requires pmm.Valid() && base + STATIC_FRAMES <= pmm.totalFrames && base + STATIC_FRAMES <= DIRECT_MAP_FRAMES
      requires forall f :: f in pmm.FreeSet() ==> !(base <= f < base + STATIC_FRAMES)
      ensures Valid() && this.pmm == pmm && fresh(tables) && Roots() == map[0 := KernelRoot(base)]
      ensures tables.base == base && tables.mem == BootMemory(base)
    {
      this.pmm := pmm;
      tables := new PageTables(base, pmm.FreeSet());
      new;
      assert Open(0);
    }

    /** Takes a frame for a table of space `s`. */
    method TakeFrame(s: nat) returns (ok: bool, f: nat)
      requires Valid() && s < MAX_SPACES
      modifies pmm, pmm.bitmap, pmm.bitmap.bytes
      ensures Sealed() && pmm.initialized == old(pmm.initialized)
      ensures ok <==> pmm.initialized && old(Free()) != {}
      ensures ok ==> f in old(Free()) && Free() == old(Free()) - {f}
      ensures !ok ==> Free() == old(Free())
      ensures ok ==> Pmm.Hands(old(pmm.Now()), pmm.Now(), tables.spaces[s].node, f)
      ensures !ok ==> !pmm.initialized || Pmm.Idle(old(pmm.Now()), tables.spaces[s].node)
    {
      assert Open(0);
      var physical;
      ok, physical := pmm.AllocFrameOnNode(tables.spaces[s].node);
      f := physical / PAGE_SIZE;
    }

    /** Takes a frame for the caller's own use. */
    method TakeFrameOn(node: nat) returns (ok: bool, f: nat)
      requires Valid()
      modifies pmm, pmm.bitmap, pmm.bitmap.bytes
      ensures Valid() && pmm.initialized == old(pmm.initialized)
      ensures ok <==> pmm.initialized && old(Free()) != {}
      ensures ok ==> f in old(Free()) && Free() == old(Free()) - {f}
      ensures ok ==> Pmm.Hands(old(pmm.Now()), pmm.Now(), node, f)
      ensures !ok ==> Free() == old(Free())
    {
      assert Open(0);
      InvFree(tables.mem, Roots(), tables.owner, tables.base, Free(), 0);
      var physical;
      ok, physical := pmm.AllocFrameOnNode(node);
      f := physical / PAGE_SIZE;
      if ok { InvFree(tables.mem, Roots(), tables.owner, tables.base, old(Free()), f); }
    }

    /** Gives back the frame of an address that no table uses; frames past the managed ones are
        ignored. */
    method GiveFrame(physical: nat)
      requires Valid()
      requires physical / PAGE_SIZE < pmm.totalFrames ==> Loose({physical / PAGE_SIZE}, tables.owner, tables.base)
      modifies pmm, pmm.bitmap, pmm.bitmap.bytes
      ensures Valid() && pmm.initialized == old(pmm.initialized)
      ensures Free() == old(Free()) + if physical / PAGE_SIZE < pmm.totalFrames then {physical / PAGE_SIZE} else {}
    {
      var f := physical / PAGE_SIZE;
      assert f in {f};
      InvFree(tables.mem, Roots(), tables.owner, tables.base, Free(), f);
      assert Open(0);
      pmm.FreeFrame(physical);
    }

    /** Gives a frame that is no longer used back. */
    method ReleaseFrame(f: nat)
      requires Sealed() && f < pmm.totalFrames
      modifies pmm, pmm.bitmap, pmm.bitmap.bytes
      ensures Sealed() && pmm.initialized == old(pmm.initialized)
      ensures Free() == old(Free()) + {f}
    {
      assert Open(0);
      Pmm.FrameAddress(f);
      pmm.FreeFrame(f * PAGE_SIZE);
    }

    /** A fresh frame has to be reached through the direct map: the kernel halts when the frame
        that is next in line lies past the end of it. */
    method TakeTableFrame(s: nat) returns (halt: bool, ok: bool, f: nat)
      requires Valid() && s < MAX_SPACES
      modifies pmm, pmm.bitmap, pmm.bitmap.bytes
      ensures Sealed() && pmm.initialized == old(pmm.initialized) && (halt ==> !ok && Valid())
      ensures ok || halt <==> pmm.initialized && old(Free()) != {}
      ensures ok || halt ==> f in old(Free()) && Free() == old(Free()) - {f} && (halt <==> f >= DIRECT_MAP_FRAMES)
      ensures !ok && !halt ==> Free() == old(Free())
      ensures halt <==> TookPast(old(Free()), Free())
      ensures halt <==> pmm.initialized && PastWithin(old(pmm.Now()), tables.spaces[s].node, 1)
      ensures ok ==> Pmm.Hands(old(pmm.Now()), pmm.Now(), tables.spaces[s].node, f)
      ensures !ok && !halt ==> !pmm.initialized || Pmm.Idle(old(pmm.Now()), tables.spaces[s].node)
    {
      ok, f := TakeFrame(s);
      halt := ok && f >= DIRECT_MAP_FRAMES;
      if ok {
        PastNext(old(pmm.Now()), pmm.Now(), tables.spaces[s].node, f, 1);
      }
      if halt {
        InvFree(tables.mem, Roots(), tables.owner, tables.base, old(Free()), f);
        ok := false;
      }
    }

    /** A fresh directory in a vacant user root slot. */
    method NewDirectory(s: nat, i: nat) returns (halt: bool, ok: bool, dir: nat)
      requires Valid() && s in Roots() && i < KERNEL_SLOT && Roots()[s] < |tables.mem| && Roots()[s] in tables.owner
      requires !Present(tables.mem[Roots()[s]][i])
      modifies tables`mem, tables`owner, pmm, pmm.bitmap, pmm.bitmap.bytes
      ensures Valid() && pmm.initialized == old(pmm.initialized)
      ensures (halt ==> !ok) && (halt <==> TookPast(old(Free()), Free()))
      ensures !halt ==> Quiet(old(Now()), Now(), Roots(), tables.base, s)
      ensures ok ==> Hung(old(Now()), Now(), old(Roots()[s]), i, dir, DirOf(s, i))
      ensures !ok && !halt ==>
                Now() == old(Now()) && (!pmm.initialized || Pmm.Idle(old(pmm.Now()), tables.spaces[s].node))
      ensures ok || halt <==> pmm.initialized && old(Free()) != {}
      ensures halt <==> pmm.initialized && PastWithin(old(pmm.Now()), tables.spaces[s].node, 1)
      ensures ok ==> Pmm.Hands(old(pmm.Now()), pmm.Now(), tables.spaces[s].node, dir)
    {
      QuietSelf(Now(), Roots(), tables.base, s);
      halt, ok, dir := TakeTableFrame(s);
      if ok {
        tables.HangDirectory(s, i, dir, old(Free()));
        OwnedBelowKept(old(tables.owner), tables.owner, old(Free()), Free(), s, pmm.totalFrames);
      }
    }

    /** The directory of a user root slot, allocated when the slot is vacant. */
    method EnsureDirectory(s: nat, i: nat) returns (halt: bool, ok: bool, dir: nat)
      requires Valid() && s in Roots() && i < KERNEL_SLOT
      modifies tables`mem, tables`owner, pmm, pmm.bitmap, pmm.bitmap.bytes
      ensures Valid() && pmm.initialized == old(pmm.initialized)
      ensures (halt ==> !ok) && (halt <==> TookPast(old(Free()), Free()))
      ensures !halt ==> Quiet(old(Now()), Now(), Roots(), tables.base, s)
      ensures old(Roots()[s]) < |old(tables.mem)|
      ensures ok ==> Hung(old(Now()), Now(), old(Roots()[s]), i, dir, DirOf(s, i))
      ensures !ok && !halt ==>
                Now() == old(Now()) && (!pmm.initialized || Pmm.Idle(old(pmm.Now()), tables.spaces[s].node))
      ensures ok || halt <==> Present(old(tables.mem)[old(Roots()[s])][i]) || (pmm.initialized && old(Free()) != {})
      ensures if Present(old(tables.mem)[old(Roots()[s])][i]) then pmm.Now() == old(pmm.Now()) && !halt
              else (halt <==> pmm.initialized && PastWithin(old(pmm.Now()), tables.spaces[s].node, 1)) &&
                   (ok ==> Pmm.Hands(old(pmm.Now()), pmm.Now(), tables.spaces[s].node, dir))
    {
      Path(tables.mem, Roots(), tables.owner, KernelDir(tables.base), s, i, 0);
      var root := tables.spaces[s].root;
      var pdpte := tables.mem[root][i];
      if !Present(pdpte) {
        halt, ok, dir := NewDirectory(s, i);
      } else {
        tables.GrantUser(root, i, Free());
        SameEntry(tables.owner, Free(), pdpte.frame, DirOf(s, i));
        return false, true, pdpte.frame;
      }
    }

    /** The table of a directory slot, allocated when the slot is vacant. */
    method EnsureTable(s: nat, i: nat, d: nat, dir: nat) returns (halt: bool, ok: bool, table: nat)
      requires Valid() && s in Roots() && d < ENTRIES && dir in tables.owner && tables.owner[dir] == DirOf(s, i)
      modifies tables`mem, tables`owner, pmm, pmm.bitmap, pmm.bitmap.bytes
      ensures Valid() && pmm.initialized == old(pmm.initialized)
      ensures (halt ==> !ok) && (halt <==> TookPast(old(Free()), Free())) && Free() <= old(Free())
      ensures !halt ==> Quiet(old(Now()), Now(), Roots(), tables.base, s)
      ensures ok ==> Hung(old(Now()), Now(), dir, d, table, TableOf(s, i, d))
      ensures Present(old(tables.mem)[dir][d]) ==> !Large(old(tables.mem)[dir][d])
      ensures !ok && !halt ==> Now() == old(Now())
      ensures ok || halt <==> Present(old(tables.mem)[dir][d]) || (pmm.initialized && old(Free()) != {})
      ensures halt <==>
                !Present(old(tables.mem)[dir][d]) && pmm.initialized &&
                PastWithin(old(pmm.Now()), tables.spaces[s].node, 1)
    {
      assert Placed(tables.mem, Roots(), tables.owner, KernelDir(tables.base), dir);
      var pde := tables.mem[dir][d];
      if !Present(pde) {
        QuietSelf(Now(), Roots(), tables.base, s);
        halt, ok, table := TakeTableFrame(s);
        if ok {
          tables.HangTable(dir, d, table, old(Free()));
          OwnedBelowKept(old(tables.owner), tables.owner, old(Free()), Free(), s, pmm.totalFrames);
        }
      } else {
        tables.GrantUser(dir, d, Free());
        SameEntry(tables.owner, Free(), pde.frame, TableOf(s, i, d));
        return false, true, pde.frame;
      }
    }

    /** The table for a user page, with whatever directory and table it takes to get there.  The
        kernel halts exactly if one of the frames next in line for them lies past the direct map. */
    method EnsurePath(s: nat, i: nat, d: nat) returns (halt: bool, ok: bool, table: nat, ghost dir: nat)
      requires Valid() && s in Roots() && i < KERNEL_SLOT && d < ENTRIES
      modifies tables`mem, tables`owner, pmm, pmm.bitmap, pmm.bitmap.bytes
      ensures Valid() && pmm.initialized == old(pmm.initialized)
      ensures (halt ==> !ok) && (halt <==> TookPast(old(Free()), Free()))
      ensures !halt ==> Quiet(old(Now()), Now(), Roots(), tables.base, s)
      ensures old(Roots()[s]) < |old(tables.mem)|
      ensures ok ==> Pathed(old(Now()), Now(), s, old(Roots()[s]), i, d, dir, table)
      ensures !ok && !halt ==> LeftOver(old(Now()), Now(), s, old(Roots()[s]), i, dir, pmm.initialized)
      ensures !halt ==> (ok <==> Enough(pmm.initialized, old(Free()), Missing(old(tables.mem), old(Roots()[s]), i, d)))
      ensures halt <==>
                pmm.initialized &&
                PastWithin(old(pmm.Now()), tables.spaces[s].node, Missing(old(tables.mem), old(Roots()[s]), i, d))
    {
      table := 0;
      Path(tables.mem, Roots(), tables.owner, KernelDir(tables.base), s, i, d);
      ghost var start, desk := Now(), pmm.Now();
      var made;
      halt, ok, made := EnsureDirectory(s, i);
      dir := made;
      if ok {
        halt, ok, table := FinishPath(s, i, d, made, start, desk);
      } else {
        PathStops(desk, tables.spaces[s].node, pmm.initialized, halt);
      }
    }

    /** The rest of a path whose directory is there. */
    method FinishPath(s: nat, i: nat, d: nat, dir: nat, ghost start: Snap, ghost desk: Pmm.Desk)
      returns (halt: bool, ok: bool, table: nat)
      requires Valid() && s in Roots() && i < KERNEL_SLOT && d < ENTRIES && |start.mem| == DIRECT_MAP_FRAMES
      requires Hung(start, Now(), Roots()[s], i, dir, DirOf(s, i)) && Quiet(start, Now(), Roots(), tables.base, s)
      requires !TookPast(start.free, Free())
      requires if Present(start.mem[Roots()[s]][i]) then pmm.Now() == desk
               else pmm.initialized && Pmm.Hands(desk, pmm.Now(), tables.spaces[s].node, dir)
      modifies tables`mem, tables`owner, pmm, pmm.bitmap, pmm.bitmap.bytes
      ensures Valid() && pmm.initialized == old(pmm.initialized)
      ensures (halt ==> !ok) && (halt <==> TookPast(start.free, Free()))
      ensures !halt ==> Quiet(start, Now(), Roots(), tables.base, s)
      ensures ok ==> Pathed(start, Now(), s, old(Roots()[s]), i, d, dir, table)
      ensures !ok && !halt ==> LeftOver(start, Now(), s, old(Roots()[s]), i, dir, pmm.initialized)
      ensures !halt ==> (ok <==> Enough(pmm.initialized, start.free, Missing(start.mem, old(Roots()[s]), i, d)))
      ensures halt <==>
                pmm.initialized && PastWithin(desk, tables.spaces[s].node, Missing(start.mem, old(Roots()[s]), i, d))
    {
      ghost var mid, left, later := Now(), Free(), pmm.Now();
      Path(tables.mem, Roots(), tables.owner, KernelDir(tables.base), s, i, d);
      halt, ok, table := EnsureTable(s, i, d, dir);
      TookPastLater(start.free, left, Free());
      if !halt { QuietTrans(start, mid, Now(), Roots(), tables.base, s); }
      PathEnds(start, mid, Now(), s, old(Roots()[s]), i, d, dir, table, ok, halt, pmm.initialized);
      PathNeeds(start, mid, s, old(Roots()[s]), i, d, dir, pmm.initialized);
      PathLine(start, mid, desk, later, tables.spaces[s].node, s, old(Roots()[s]), i, d, dir);
    }

    /** Maps one user page once its slots are known. */
    method MapInSpace(s: nat, i: nat, d: nat, t: nat, frame: nat, flags: bv12)
      returns (halt: bool, ok: bool, ghost dir: nat, ghost table: nat)
      requires Valid() && s in Roots() && i < KERNEL_SLOT && d < ENTRIES && t < ENTRIES
      modifies tables`mem, tables`owner, pmm, pmm.bitmap, pmm.bitmap.bytes
      ensures Valid() && pmm.initialized == old(pmm.initialized)
      ensures (halt ==> !ok) && (halt <==> TookPast(old(Free()), Free()))
      ensures ok ==> Changed(old(Now()), Now(), Roots(), tables.base, s, i, d, t,
                             Hit(frame, UserFlags(flags)))
      ensures ok ==>
                PageIn(old(Now()), Now(), s, old(Roots()[s]), i, d, t, dir, table, Entry(frame, UserFlags(flags)))
      ensures ok ==> Permitted(old(tables.mem), tables.mem, Roots(), s, i, d, t, flags & WRITABLE != 0)
      ensures !ok && !halt ==>
                Quiet(old(Now()), Now(), Roots(), tables.base, s) &&
                LeftOver(old(Now()), Now(), s, old(Roots()[s]), i, dir, pmm.initialized) &&
                Refused(old(tables.mem), tables.mem, Roots(), s, i)
      ensures old(Roots()[s]) < |old(tables.mem)|
      ensures !halt ==> (ok <==> Enough(pmm.initialized, old(Free()), Missing(old(tables.mem), old(Roots()[s]), i, d)))
      ensures halt <==>
                pmm.initialized &&
                PastWithin(old(pmm.Now()), tables.spaces[s].node, Missing(old(tables.mem), old(Roots()[s]), i, d))
    {
      var leaf;
      halt, ok, leaf, dir := EnsurePath(s, i, d);
      table := leaf;
      if ok {
        WritePage(s, i, d, t, leaf, Entry(frame, UserFlags(flags)), old(Now()), dir);
        UserLeafFlags(flags);
        PagePermitted(old(Now()), Now(), Roots(), tables.base, s, i, d, t, dir, table,
                      Entry(frame, UserFlags(flags)));
      } else if !halt {
        MapRefused(old(Now()), Now(), Roots(), tables.base, s, i, dir, pmm.initialized);
      }
    }

    /** Writes the entry of a page whose path is made. */
    method WritePage(s: nat, i: nat, d: nat, t: nat, table: nat, e: Entry, ghost start: Snap, ghost dir: nat)
      requires Valid() && s in Roots() && t < ENTRIES && Pathed(start, Now(), s, Roots()[s], i, d, dir, table)
      requires Quiet(start, Now(), Roots(), tables.base, s)
      modifies tables`mem
      ensures Valid() && Changed(start, Now(), Roots(), tables.base, s, i, d, t, LeafOf(e))
      ensures PageIn(start, Now(), s, Roots()[s], i, d, t, dir, table, e)
    {
      ghost var mid := Now();
      tables.WriteLeaf(table, t, e, Free());
      QuietThenChanged(start, mid, Now(), Roots(), tables.base, s, i, d, t, LeafOf(e));
      PathThenPage(start, mid, Now(), s, Roots()[s], i, d, t, dir, table, e);
    }

    /** Maps a user page.  Bad arguments and exhausted memory are refused; then, or when only
        the directory could be allocated, no lookup of any space changes.  On success that
        page's lookup is the new frame and every other one is unchanged.  The kernel halts
        exactly if a frame next in line for one of the missing tables lies past the direct map. */
    method MapUserPage(s: nat, va: nat, physical: nat, flags: bv12)
      returns (halt: bool, ok: bool, ghost dir: nat, ghost table: nat)
      requires Valid()
      modifies tables`mem, tables`owner, pmm, pmm.bitmap, pmm.bitmap.bytes
      ensures Valid() && pmm.initialized == old(pmm.initialized)
      ensures (halt ==> !ok) && (halt <==> TookPast(old(Free()), Free()))
      ensures s in Roots() ==> s < MAX_SPACES && Roots()[s] < |old(tables.mem)|
      ensures halt <==>
                Accepts(Roots(), s, va, physical) && pmm.initialized &&
                PastWithin(old(pmm.Now()), tables.spaces[s].node,
                           Missing(old(tables.mem), Roots()[s], PdptIndex(va), DirectoryIndex(va)))
      ensures !halt ==>
                (ok <==> Accepts(Roots(), s, va, physical) &&
                         Enough(pmm.initialized, old(Free()),
                                Missing(old(tables.mem), Roots()[s], PdptIndex(va), DirectoryIndex(va))))
      ensures ok ==>
                Changed(old(Now()), Now(), Roots(), tables.base, s, PdptIndex(va), DirectoryIndex(va), TableIndex(va),
                        Hit(physical / PAGE_SIZE, UserFlags(flags))) &&
                PageIn(old(Now()), Now(), s, Roots()[s], PdptIndex(va), DirectoryIndex(va), TableIndex(va), dir, table,
                       Entry(physical / PAGE_SIZE, UserFlags(flags))) &&
                Permitted(old(tables.mem), tables.mem, Roots(), s, PdptIndex(va), DirectoryIndex(va), TableIndex(va),
                          flags & WRITABLE != 0)
      ensures !ok && !halt ==>
                Quiet(old(Now()), Now(), Roots(), tables.base, s) &&
                if Accepts(Roots(), s, va, physical) then
                  LeftOver(old(Now()), Now(), s, Roots()[s], PdptIndex(va), dir, pmm.initialized) &&
                  Refused(old(tables.mem), tables.mem, Roots(), s, PdptIndex(va))
                else Now() == old(Now())
    {
      dir, table := 0, 0;
      QuietSelf(Now(), Roots(), tables.base, s);
      if s in Roots() { Path(tables.mem, Roots(), tables.owner, KernelDir(tables.base), s, 0, 0); }
      if s >= MAX_SPACES || !tables.spaces[s].inUse || !(USER_BASE <= va < KERNEL_VMA) {
        return false, false, dir, table;
      }
      if va % PAGE_SIZE != 0 || physical % PAGE_SIZE != 0 {
        return false, false, dir, table;
      }
      UserSlots(va);
      UserLeafFlags(flags);
      halt, ok, dir, table := MapInSpace(s, PdptIndex(va), DirectoryIndex(va), TableIndex(va), physical / PAGE_SIZE,
                                         flags | USER);
    }

    /** Frees the page's table when it has become empty, and then the directory likewise. */
    method Prune(s: nat, i: nat, d: nat, dir: nat)
      requires Valid() && s in Roots() && i < KERNEL_SLOT && d < ENTRIES && (i == 0 ==> d >= 2)
      requires dir in tables.owner && tables.owner[dir] == DirOf(s, i) && dir < |tables.mem|
      requires Leads(tables.mem, dir, d)
      modifies tables`mem, tables`owner, pmm, pmm.bitmap, pmm.bitmap.bytes
      ensures Valid() && pmm.initialized == old(pmm.initialized)
      ensures Quiet(old(Now()), Now(), Roots(), tables.base, s) && Pruned(old(tables.mem), tables.mem)
      ensures tables.owner == old(tables.owner) - Emptied(old(tables.mem), dir, d)
      ensures Free() == old(Free()) + Emptied(old(tables.mem), dir, d)
    {
      QuietSelf(Now(), Roots(), tables.base, s);
      PrunedPut(tables.mem, dir, d);
      var used := tables.HasPresentEntries(tables.mem[tables.mem[dir][d].frame]);
      if !used {
        PruneTable(s, i, d, dir);
      }
    }

    /** Frees a table that has no present entry left, and then the directory if it has none. */
    method PruneTable(s: nat, i: nat, d: nat, dir: nat)
      requires Valid() && s in Roots() && i < KERNEL_SLOT && d < ENTRIES && (i == 0 ==> d >= 2)
      requires dir in tables.owner && tables.owner[dir] == DirOf(s, i) && dir < |tables.mem|
      requires Leads(tables.mem, dir, d) && Vacant(tables.mem[tables.mem[dir][d].frame])
      modifies tables`mem, tables`owner, pmm, pmm.bitmap, pmm.bitmap.bytes
      ensures Valid() && pmm.initialized == old(pmm.initialized)
      ensures Quiet(old(Now()), Now(), Roots(), tables.base, s) && Pruned(old(tables.mem), tables.mem)
      ensures tables.owner == old(tables.owner) - Emptied(old(tables.mem), dir, d)
      ensures Free() == old(Free()) + Emptied(old(tables.mem), dir, d)
    {
      var table := tables.mem[dir][d].frame;
      PrunedPut(tables.mem, dir, d);
      DropTable(s, i, d, dir);
      ghost var mid := Now();
      CutLeaves(old(tables.mem), dir, d);
      PruneDirectory(s, i, dir);
      QuietTrans(old(Now()), mid, Now(), Roots(), tables.base, s);
      PrunedTrans(old(tables.mem), mid.mem, tables.mem);
      DropBoth(old(tables.owner), old(Free()), table, dir);
    }

    /** Cuts off an empty table and frees it. */
    method DropTable(s: nat, i: nat, d: nat, dir: nat)
      requires Valid() && d < ENTRIES && (i == 0 ==> d >= 2)
      requires dir in tables.owner && tables.owner[dir] == DirOf(s, i) && dir < |tables.mem|
      requires Leads(tables.mem, dir, d) && Vacant(tables.mem[tables.mem[dir][d].frame])
      modifies tables`mem, tables`owner, pmm, pmm.bitmap, pmm.bitmap.bytes
      ensures Valid() && pmm.initialized == old(pmm.initialized)
      ensures Quiet(old(Now()), Now(), Roots(), tables.base, s)
      ensures var f := old(tables.mem)[dir][d].frame;
              tables.owner == old(tables.owner) - {f} && Free() == old(Free()) + {f} && dir in tables.owner
      ensures tables.mem == Put(old(tables.mem), dir, d, ZERO)
    {
      assert Placed(tables.mem, Roots(), tables.owner, KernelDir(tables.base), dir);
      var f := tables.CutTable(dir, d, Free());
      ReleaseFrame(f);
    }

    /** Frees a directory that has no present entry left. */
    method PruneDirectory(s: nat, i: nat, dir: nat)
      requires Valid() && s in Roots() && i < KERNEL_SLOT
      requires dir in tables.owner && tables.owner[dir] == DirOf(s, i)
      modifies tables`mem, tables`owner, pmm, pmm.bitmap, pmm.bitmap.bytes
      ensures Valid() && pmm.initialized == old(pmm.initialized) && dir < |old(tables.mem)|
      ensures Quiet(old(Now()), Now(), Roots(), tables.base, s) && Pruned(old(tables.mem), tables.mem)
      ensures tables.owner == old(tables.owner) - if Vacant(old(tables.mem)[dir]) then {dir} else {}
      ensures Free() == old(Free()) + if Vacant(old(tables.mem)[dir]) then {dir} else {}
    {
      QuietSelf(Now(), Roots(), tables.base, s);
      assert Placed(tables.mem, Roots(), tables.owner, KernelDir(tables.base), dir);
      PrunedPut(tables.mem, tables.spaces[s].root, i);
      var used := tables.HasPresentEntries(tables.mem[dir]);
      if !used {
        var f := tables.CutDirectory(s, i, Free());
        ReleaseFrame(f);
      }
    }

    /** Unmaps one user page once its slots are known. */
    method UnmapInSpace(s: nat, i: nat, d: nat, t: nat)
      requires Valid() && s in Roots() && i < KERNEL_SLOT && d < ENTRIES && t < ENTRIES && (i == 0 ==> d >= 2)
      modifies tables`mem, tables`owner, pmm, pmm.bitmap, pmm.bitmap.bytes
      ensures Valid() && pmm.initialized == old(pmm.initialized)
      ensures Changed(old(Now()), Now(), Roots(), tables.base, s, i, d, t, Miss)
      ensures PageOut(old(Now()), Now(), old(Roots()[s]), i, d, t)
      ensures Pruned(old(tables.mem), tables.mem) && Withdrawn(old(tables.mem), tables.mem, Roots(), s, i, d, t)
    {
      Path(tables.mem, Roots(), tables.owner, KernelDir(tables.base), s, i, d);
      ghost var root := Roots()[s];
      var pdpte := tables.mem[tables.spaces[s].root][i];
      if !Present(pdpte) {
        return;
      }
      var dir := pdpte.frame;
      var pde := tables.mem[dir][d];
      if !Present(pde) || Large(pde) || !Present(tables.mem[pde.frame][t]) {
        return;
      }
      EmptiedIsGivenBack(tables.mem, root, i, d, t);
      PrunedPut(tables.mem, pde.frame, t);
      tables.WriteLeaf(pde.frame, t, ZERO, Free());
      ghost var mid := Now();
      Prune(s, i, d, dir);
      ChangedThenQuiet(old(Now()), mid, Now(), Roots(), tables.base, s, i, d, t, Miss);
      PrunedTrans(old(tables.mem), mid.mem, tables.mem);
      PageWithdrawn(old(tables.mem), tables.mem, Roots(), s, i, d, t);
    }

    /** Unmaps a user page.  Exactly that page's lookup disappears; the table goes back exactly if
        the page was its last, and then the directory exactly if the table was its last; bad
        arguments change nothing. */
    method UnmapUserPage(s: nat, va: nat)
      requires Valid()
      modifies tables`mem, tables`owner, pmm, pmm.bitmap, pmm.bitmap.bytes
      ensures Valid() && pmm.initialized == old(pmm.initialized)
      ensures if UserPage(Roots(), s, va) then
                Changed(old(Now()), Now(), Roots(), tables.base, s, PdptIndex(va), DirectoryIndex(va), TableIndex(va),
                        Miss) &&
                PageOut(old(Now()), Now(), Roots()[s], PdptIndex(va), DirectoryIndex(va), TableIndex(va)) &&
                Withdrawn(old(tables.mem), tables.mem, Roots(), s, PdptIndex(va), DirectoryIndex(va), TableIndex(va))
              else tables.mem == old(tables.mem) && tables.owner == old(tables.owner) && Free() == old(Free())
    {
      if s >= MAX_SPACES || !tables.spaces[s].inUse || !(USER_BASE <= va < KERNEL_VMA) {
        return;
      }
      UserSlots(va);
      UnmapInSpace(s, PdptIndex(va), DirectoryIndex(va), TableIndex(va));
    }

    /** A page that is mapped and unmapped again.  Frames and tables are as before, except that
        tables on its path that held nothing else before go back too. */
    method MapThenUnmap(s: nat, va: nat, physical: nat, flags: bv12) returns (halt: bool, ok: bool)
      requires Valid()
      modifies tables`mem, tables`owner, pmm, pmm.bitmap, pmm.bitmap.bytes
      ensures Valid() && (ok ==> s in Roots() && Roots()[s] < |old(tables.mem)| && USER_BASE <= va < KERNEL_VMA)
      ensures ok ==>
                var kept := Surplus(old(tables.mem), Roots()[s], PdptIndex(va), DirectoryIndex(va), TableIndex(va));
                tables.owner == old(tables.owner) - kept && Free() == old(Free()) + kept
      ensures ok ==> Changed(old(Now()), Now(), Roots(), tables.base, s, PdptIndex(va), DirectoryIndex(va),
                             TableIndex(va), Miss)
    {
      ghost var start := Now();
      ghost var dir, table;
      halt, ok, dir, table := MapUserPage(s, va, physical, flags);
      if ok {
        ghost var mid := Now();
        UnmapUserPage(s, va);
        ChangedTwice(start, mid, Now(), Roots(), tables.base, s, PdptIndex(va), DirectoryIndex(va), TableIndex(va),
                     Hit(physical / PAGE_SIZE, UserFlags(flags)), Miss);
        TableUse.MapThenUnmap(start, mid, Now(), s, Roots()[s], PdptIndex(va), DirectoryIndex(va), TableIndex(va), dir,
                              table, Entry(physical / PAGE_SIZE, UserFlags(flags)));
        UserLeafFlags(flags);
      }
    }

    /** Creates an address space: a root that shares the kernel half and maps no user page.  The
        kernel halts exactly if the frame it took for the root lies past the direct map. */
    method CreateProcessSpace(node: nat) returns (halt: bool, ok: bool, s: nat)
      requires Valid()
      modifies tables`mem, tables`owner, tables`spaces, pmm, pmm.bitmap, pmm.bitmap.bytes
      ensures Valid() && pmm.initialized == old(pmm.initialized)
      ensures (halt ==> !ok) && (halt <==> TookPast(old(Free()), Free()))
      ensures halt <==> pmm.initialized && PastWithin(old(pmm.Now()), node, 1)
      ensures !halt ==>
                (ok <==> pmm.initialized && old(Free()) != {} && exists r :: 0 <= r < MAX_SPACES && r !in old(Roots()))
      ensures ok ==> s !in old(Roots()) && s in Roots() && Roots() == old(Roots())[s := Roots()[s]]
      ensures ok ==> s < MAX_SPACES && tables.spaces[s].node == node
      ensures ok ==> Roots()[s] in old(Free()) && Roots()[s] < DIRECT_MAP_FRAMES
      ensures ok ==> FramesOf(tables.owner, s) == {Roots()[s]}
      ensures ok ==> forall i, d, t :: 0 <= i < KERNEL_SLOT && 0 <= d < ENTRIES && 0 <= t < ENTRIES ==>
                       Walk(tables.mem, Roots()[s], i, d, t) == Miss
      ensures !ok ==> Roots() == old(Roots()) && tables.mem == old(tables.mem)
      ensures !halt ==> Quiet(old(Now()), Now(), old(Roots()), tables.base, s)
    {
      s := 0;
      QuietSelf(Now(), Roots(), tables.base, s);
      if !pmm.initialized {
        return false, false, 0;
      }
      var physical;
      assert Open(0);
      ok, physical := pmm.AllocFrameOnNode(node);
      if !ok {
        return false, false, 0;
      }
      PastNext(old(pmm.Now()), pmm.Now(), node, physical / PAGE_SIZE, 1);
      if physical / PAGE_SIZE >= DIRECT_MAP_FRAMES {
        InvFree(tables.mem, Roots(), tables.owner, tables.base, old(Free()), physical / PAGE_SIZE);
        return true, false, 0;
      }
      halt := false;
      ok, s := PlaceRoot(physical, node, old(Free()));
    }

    /** Gives a fresh root frame a space record, or frees it again. */
    method PlaceRoot(physical: nat, node: nat, ghost free: set<nat>) returns (ok: bool, s: nat)
      requires Sealed() && tables.Valid(free) && OwnedBelow(tables.owner, pmm.totalFrames)
      requires physical / PAGE_SIZE < DIRECT_MAP_FRAMES
      requires physical / PAGE_SIZE in free && physical / PAGE_SIZE < pmm.totalFrames
      requires Free() == free - {physical / PAGE_SIZE} && forall f :: f in free ==> f < pmm.totalFrames
      modifies tables`mem, tables`owner, tables`spaces, pmm, pmm.bitmap, pmm.bitmap.bytes
      ensures Valid() && pmm.initialized == old(pmm.initialized)
      ensures ok <==> exists r :: 0 <= r < MAX_SPACES && r !in old(Roots())
      ensures ok ==> s !in old(Roots()) && Roots() == old(Roots())[s := physical / PAGE_SIZE]
      ensures ok ==> s < MAX_SPACES && tables.spaces[s].node == node
      ensures ok ==> FramesOf(tables.owner, s) == {physical / PAGE_SIZE}
      ensures ok ==> forall i, d, t :: 0 <= i < KERNEL_SLOT && 0 <= d < ENTRIES && 0 <= t < ENTRIES ==>
                       Walk(tables.mem, physical / PAGE_SIZE, i, d, t) == Miss
      ensures !ok ==> Roots() == old(Roots()) && tables.mem == old(tables.mem)
      ensures Quiet(old(tables.At(free)), Now(), old(Roots()), tables.base, s)
    {
      // The kernel fills the frame before it looks for a record; with no record left the
      // frame goes back, so its contents do not matter.
      ok, s := FreeRecord();
      if !ok {
        assert Open(0);
        pmm.FreeFrame(physical);
        assert Free() == free;
        QuietSelf(tables.At(free), Roots(), tables.base, s);
        return false, 0;
      }
      tables.AddSpace(s, physical / PAGE_SIZE, node, free);
      OwnedBelowKept(old(tables.owner), tables.owner, free, Free(), s, pmm.totalFrames);
    }

    /** Releases one more frame on top of the `done` ones. */
    method ReleaseNext(f: nat, ghost free: set<nat>, ghost done: set<nat>)
      requires Sealed() && f < pmm.totalFrames && f !in done && Free() == free + done
      modifies pmm, pmm.bitmap, pmm.bitmap.bytes
      ensures Sealed() && pmm.initialized == old(pmm.initialized)
      ensures Free() == free + (done + {f}) && |done + {f}| == |done| + 1
    {
      ReleaseFrame(f);
    }

    /** Frees the frame one table entry maps, on top of what the earlier entries map. */
    method FreeLeaf(f: nat, t: nat, ghost free: set<nat>) returns (ghost calls: nat)
      requires Sealed() && Tables(tables.mem) && f < |tables.mem| && t < ENTRIES
      requires LeavesOnce(tables.mem, f) && InUse(Bundle(tables.mem, f), free, pmm.totalFrames)
      requires Free() == free + Leaves(tables.mem, f, t)
      modifies pmm, pmm.bitmap, pmm.bitmap.bytes
      ensures Sealed() && pmm.initialized == old(pmm.initialized)
      ensures Free() == free + Leaves(tables.mem, f, t + 1)
      ensures |Leaves(tables.mem, f, t + 1)| == |Leaves(tables.mem, f, t)| + calls
    {
      NextLeaf(tables.mem, f, t, free, pmm.totalFrames);
      var pte := tables.mem[f][t];
      calls := 0;
      if Present(pte) {
        ReleaseNext(pte.frame, free, Leaves(tables.mem, f, t));
        calls := 1;
      }
    }

    /** Frees every frame a table maps and then the table's own.  The ghost result counts the
        calls to the frame allocator: as many as frames, so none is freed twice. */
    method FreeTable(f: nat, ghost free: set<nat>) returns (ghost calls: nat)
      requires Sealed() && Tables(tables.mem) && f < |tables.mem| && Free() == free
      requires LeavesOnce(tables.mem, f) && InUse(Bundle(tables.mem, f), free, pmm.totalFrames)
      modifies pmm, pmm.bitmap, pmm.bitmap.bytes
      ensures Sealed() && pmm.initialized == old(pmm.initialized)
      ensures Free() == free + Bundle(tables.mem, f) && calls == |Bundle(tables.mem, f)|
    {
      calls := 0;
      assert free + Leaves(tables.mem, f, 0) == free;
      for t := 0 to ENTRIES
        invariant Sealed() && pmm.initialized == old(pmm.initialized)
        invariant Free() == free + Leaves(tables.mem, f, t) && calls == |Leaves(tables.mem, f, t)|
      {
        ghost var n := FreeLeaf(f, t, free);
        calls := calls + n;
      }
      ReleaseNext(f, free, Leaves(tables.mem, f, ENTRIES));
      calls := calls + 1;
    }

    /** Frees what hangs in one directory slot, on top of what the earlier slots held. */
    method FreeSlot(dir: nat, d: nat, ghost free: set<nat>) returns (ghost calls: nat)
      requires Sealed() && Tables(tables.mem) && dir < |tables.mem| && d < ENTRIES && NoLarge(tables.mem, dir)
      requires BelowOnce(tables.mem, dir) && InUse(Below(tables.mem, dir, ENTRIES), free, pmm.totalFrames)
      requires Free() == free + Below(tables.mem, dir, d)
      modifies pmm, pmm.bitmap, pmm.bitmap.bytes
      ensures Sealed() && pmm.initialized == old(pmm.initialized)
      ensures Free() == free + Below(tables.mem, dir, d + 1)
      ensures |Below(tables.mem, dir, d + 1)| == |Below(tables.mem, dir, d)| + calls
    {
      NextTable(tables.mem, dir, d, free, pmm.totalFrames);
      var pde := tables.mem[dir][d];
      calls := 0;
      if Present(pde) && !Large(pde) {
        calls := FreeTable(pde.frame, Free());
        Regroup(free, Below(tables.mem, dir, d), Bundle(tables.mem, pde.frame));
      }
    }

    /** Frees all tables below a directory, with what they map, and then the directory. */
    method FreeDirectory(dir: nat, ghost free: set<nat>) returns (ghost calls: nat)
      requires Sealed() && Tables(tables.mem) && dir < |tables.mem| && NoLarge(tables.mem, dir) && Free() == free
      requires BelowOnce(tables.mem, dir) && InUse(Below(tables.mem, dir, ENTRIES) + {dir}, free, pmm.totalFrames)
      modifies pmm, pmm.bitmap, pmm.bitmap.bytes
      ensures Sealed() && pmm.initialized == old(pmm.initialized)
      ensures Free() == free + (Below(tables.mem, dir, ENTRIES) + {dir})
      ensures calls == |Below(tables.mem, dir, ENTRIES) + {dir}|
    {
      calls := 0;
      assert free + Below(tables.mem, dir, 0) == free;
      for d := 0 to ENTRIES
        invariant Sealed() && pmm.initialized == old(pmm.initialized)
        invariant Free() == free + Below(tables.mem, dir, d) && calls == |Below(tables.mem, dir, d)|
      {
        ghost var n := FreeSlot(dir, d, free);
        calls := calls + n;
      }
      ReleaseNext(dir, free, Below(tables.mem, dir, ENTRIES));
      calls := calls + 1;
    }

    /** Frees what hangs in one user slot of a root, on top of what the earlier slots held. */
    method FreeSide(root: nat, i: nat, ghost free: set<nat>) returns (ghost calls: nat)
      requires Sealed() && Tables(tables.mem) && root < |tables.mem| && i < KERNEL_SLOT
      requires Plain(tables.mem, root, i)
      requires SpreadOnce(tables.mem, root) && InUse(Spread(tables.mem, root, KERNEL_SLOT), free, pmm.totalFrames)
      requires Free() == free + Spread(tables.mem, root, i)
      modifies pmm, pmm.bitmap, pmm.bitmap.bytes
      ensures Sealed() && pmm.initialized == old(pmm.initialized)
      ensures Free() == free + Spread(tables.mem, root, i + 1)
      ensures |Spread(tables.mem, root, i + 1)| == |Spread(tables.mem, root, i)| + calls
    {
      NextDir(tables.mem, root, i, free, pmm.totalFrames);
      var pdpte := tables.mem[root][i];
      calls := 0;
      if Present(pdpte) {
        calls := FreeDirectory(pdpte.frame, Free());
        Regroup(free, Spread(tables.mem, root, i), Below(tables.mem, pdpte.frame, ENTRIES) + {pdpte.frame});
      }
    }

    /** Frees the user half of a space and its root. */
    method FreeTree(root: nat, ghost free: set<nat>) returns (ghost calls: nat)
      requires Sealed() && Tables(tables.mem) && root < |tables.mem| && SpreadOnce(tables.mem, root) && Free() == free
      requires InUse(Spread(tables.mem, root, KERNEL_SLOT) + {root}, free, pmm.totalFrames)
      requires forall i :: 0 <= i < KERNEL_SLOT ==> Plain(tables.mem, root, i)
      modifies pmm, pmm.bitmap, pmm.bitmap.bytes
      ensures Sealed() && pmm.initialized == old(pmm.initialized)
      ensures Free() == free + (Spread(tables.mem, root, KERNEL_SLOT) + {root})
      ensures calls == |Spread(tables.mem, root, KERNEL_SLOT) + {root}|
    {
      calls := FreeSides(root, free);
      ReleaseNext(root, free, Spread(tables.mem, root, KERNEL_SLOT));
      calls := calls + 1;
    }

    method FreeSides(root: nat, ghost free: set<nat>) returns (ghost calls: nat)
      requires Sealed() && Tables(tables.mem) && root < |tables.mem| && SpreadOnce(tables.mem, root) && Free() == free
      requires InUse(Spread(tables.mem, root, KERNEL_SLOT), free, pmm.totalFrames)
      requires forall i :: 0 <= i < KERNEL_SLOT ==> Plain(tables.mem, root, i)
      modifies pmm, pmm.bitmap, pmm.bitmap.bytes
      ensures Sealed() && pmm.initialized == old(pmm.initialized)
      ensures Free() == free + Spread(tables.mem, root, KERNEL_SLOT) && calls == |Spread(tables.mem, root, KERNEL_SLOT)|
    {
      calls := 0;
      assert free + Spread(tables.mem, root, 0) == free;
      for i := 0 to KERNEL_SLOT
        invariant Sealed() && pmm.initialized == old(pmm.initialized)
        invariant Free() == free + Spread(tables.mem, root, i) && calls == |Spread(tables.mem, root, i)|
      {
        ghost var n := FreeSide(root, i, free);
        calls := calls + n;
      }
    }

    /** Destroys an address space other than the kernel's.  Its root, directories and tables and
        the frames of its pages are released, each by exactly one call; every other space keeps
        all its lookups.  Requests for records that are not in use, or for the kernel's space,
        change nothing. */
    method DestroyProcessSpace(s: nat) returns (ghost calls: nat)
      requires Valid()
      requires s in Roots() && s != 0 ==>
                 Private(tables.mem, Roots()[s], tables.owner, Free(), pmm.totalFrames) &&
                 !MapsStatic(tables.mem, Roots()[s], tables.base)
      modifies tables`spaces, tables`current, tables`owner, pmm, pmm.bitmap, pmm.bitmap.bytes
      ensures Valid() && pmm.initialized == old(pmm.initialized)
      ensures s !in old(Roots()) || s == 0 ==>
                Roots() == old(Roots()) && Free() == old(Free()) && tables.owner == old(tables.owner) && calls == 0 &&
                tables.current == old(tables.current)
      ensures s in old(Roots()) && s != 0 ==>
                var gone := FramesOf(old(tables.owner), s) + PageFrames(tables.mem, old(Roots())[s], pmm.totalFrames);
                Roots() == old(Roots()) - {s} && Free() == old(Free()) + gone && gone !! old(Free()) &&
                calls == |gone| &&
                tables.owner == old(tables.owner) - FramesOf(old(tables.owner), s) &&
                tables.current == if old(tables.current) == s then 0 else old(tables.current)
    {
      calls := 0;
      if s >= MAX_SPACES || !tables.spaces[s].inUse || s == 0 {
        return;
      }
      if s == tables.current {
        tables.current := 0;
      }
      calls := TearDown(s, Free(), FramesOf(tables.owner, s), PageFrames(tables.mem, Roots()[s], pmm.totalFrames));
    }

    /** Releases what a space holds and then its record. */
    method TearDown(s: nat, ghost free: set<nat>, ghost own: set<nat>, ghost pages: set<nat>) returns (ghost calls: nat)
      requires Valid() && s in Roots() && s != 0 && s != tables.current
      requires free == Free() && own == FramesOf(tables.owner, s) &&
        pages == PageFrames(tables.mem, Roots()[s], pmm.totalFrames)
      requires Private(tables.mem, Roots()[s], tables.owner, free, pmm.totalFrames) &&
        !MapsStatic(tables.mem, Roots()[s], tables.base)
      modifies tables`spaces, tables`owner, pmm, pmm.bitmap, pmm.bitmap.bytes
      ensures Valid() && pmm.initialized == old(pmm.initialized)
      ensures Roots() == old(Roots()) - {s} && tables.owner == old(tables.owner) - own
      ensures Free() == free + (own + pages) && own + pages !! free && calls == |own + pages|
    {
      PagesForgettable(tables.mem, Roots()[s], tables.owner, tables.base, free, pmm.totalFrames);
      calls := FreeSpace(s, free);
      Regroup(free, own, pages);
      assert Free() == free + own + pages;
      tables.Forget(s, free, pages);
    }

    /** Releases everything a space holds. */
    method FreeSpace(s: nat, ghost free: set<nat>) returns (ghost calls: nat)
      requires Sealed() && tables.Valid(free) && Free() == free && OwnedBelow(tables.owner, pmm.totalFrames)
      requires s in Roots() && Private(tables.mem, Roots()[s], tables.owner, free, pmm.totalFrames)
      modifies pmm, pmm.bitmap, pmm.bitmap.bytes
      ensures Sealed() && pmm.initialized == old(pmm.initialized)
      ensures var gone := FramesOf(tables.owner, s) + PageFrames(tables.mem, Roots()[s], pmm.totalFrames);
              Free() == free + gone && gone !! free && calls == |gone|
    {
      ghost var kdir := KernelDir(tables.base);
      SpaceReleasedOnce(tables.mem, Roots(), tables.owner, kdir, free, pmm.totalFrames, s);
      ReleasedFrames(tables.mem, Roots(), tables.owner, kdir, free, pmm.totalFrames, s);
      PagesInUse(tables.mem, Roots(), tables.owner, tables.base, free, pmm.totalFrames, s);
      forall i | 0 <= i < KERNEL_SLOT ensures Plain(tables.mem, Roots()[s], i) {
        DirHasNoLarge(tables.mem, Roots(), tables.owner, kdir, s, i);
      }
      calls := FreeTree(tables.spaces[s].root, free);
    }

    /** The first space record that is not in use. */
    method FreeRecord() returns (found: bool, s: nat)
      requires |tables.spaces| == MAX_SPACES
      ensures found <==> exists r :: 0 <= r < MAX_SPACES && r !in Roots()
      ensures found ==> s < MAX_SPACES && !tables.spaces[s].inUse
    {
      for r := 0 to MAX_SPACES
        invariant forall q :: 0 <= q < r ==> q in Roots()
      {
        if !tables.spaces[r].inUse {
          assert r !in Roots();
          return true, r;
        }
      }
      return false, 0;
    }
  }

  /** A machine on which creating a space halts: its one free frame lies past the direct map. */
  method HaltWitness() returns (halt: bool)
    ensures halt
  {
    var p := new Pmm.Pmm(DIRECT_MAP_FRAMES + 1);
    p.MarkAvailableRange(DIRECT_MAP_FRAMES * PAGE_SIZE, PAGE_SIZE);
    p.FinishInit();
    assert forall f :: 0 <= f <= DIRECT_MAP_FRAMES ==>
      Pmm.Marked(f, DIRECT_MAP_FRAMES * PAGE_SIZE, PAGE_SIZE, p.totalFrames) == (f == DIRECT_MAP_FRAMES);
    assert DIRECT_MAP_FRAMES in p.FreeSet();
    assert forall f :: f in p.FreeSet() ==> f == DIRECT_MAP_FRAMES;
    var paging := new Paging(p, 0);
    assert 1 !in paging.Roots();
    var ok, s;
    halt, ok, s := paging.CreateProcessSpace(NODE_ANY);
  }

  /** After every map that is refused half way, the directory that it left behind is what a later map
      and unmap below it give back beside what they take. */
  lemma {:induction false} RefusalLeavesSurplus(a: Snap, b: Snap, roots: map<nat, nat>, base: nat, s: nat, i: nat,
                                                d: nat, t: nat, dir: nat)
    requires Inv(b.mem, roots, b.owner, base, b.free) && s in roots && i < KERNEL_SLOT && d < ENTRIES
    requires LeftOver(a, b, s, roots[s], i, dir, true) && !Present(a.mem[roots[s]][i]) && a.free != {}
    ensures roots[s] < |b.mem| && Surplus(b.mem, roots[s], i, d, t) == {dir}
  {
    assert Placed(b.mem, roots, b.owner, KernelDir(base), dir);
    Path(b.mem, roots, b.owner, KernelDir(base), s, i, d);
  }

  lemma {:induction false} Regroup(free: set<nat>, done: set<nat>, b: set<nat>)
    ensures free + done + b == free + (done + b)
    ensures done !! b ==> |done + b| == |done| + |b|
  {
  }

  /** Some user page is mapped to a statically placed frame. */
  ghost predicate MapsStatic(mem: Memory, root: nat, base: nat)
    requires Tables(mem)
  {
    exists x :: base <= x < base + STATIC_FRAMES && Mapped(mem, root, x)
  }

  lemma {:induction false} PagesInUse(mem: Memory, roots: map<nat, nat>, owner: map<nat, Owner>, base: nat,
                                      free: set<nat>, total: nat, s: nat)
    requires Inv(mem, roots, owner, base, free) && OwnedBelow(owner, total)
    requires s in roots && Private(mem, roots[s], owner, free, total)
    ensures InUse(FramesOf(owner, s) + PageFrames(mem, roots[s], total), free, total)
  {
  }

  lemma {:induction false} PagesForgettable(mem: Memory, root: nat, owner: map<nat, Owner>, base: nat, free: set<nat>,
                                            total: nat)
    requires Tables(mem) && Private(mem, root, owner, free, total) && !MapsStatic(mem, root, base)
    ensures forall f :: f in PageFrames(mem, root, total) ==> f !in owner && !(base <= f < base + STATIC_FRAMES)
  {
  }

  lemma {:induction false} DirHasNoLarge(mem: Memory, roots: map<nat, nat>, owner: map<nat, Owner>, kdir: nat, s: nat,
                                         i: nat)
    requires Forest(mem, roots, owner, kdir) && s in roots && i < KERNEL_SLOT
    ensures roots[s] < |mem| && Plain(mem, roots[s], i)
  {
    Path(mem, roots, owner, kdir, s, i, 0);
    if Present(mem[roots[s]][i]) {
      forall d | 0 <= d < ENTRIES && Present(mem[mem[roots[s]][i].frame][d])
        ensures !Large(mem[mem[roots[s]][i].frame][d]) && Branch(mem, mem[roots[s]][i].frame, d)
      {
        Path(mem, roots, owner, kdir, s, i, d);
      }
    }
  }

  /** No slot of the directory is a large page, and each present one leads to a table. */
  ghost predicate NoLarge(mem: Memory, dir: nat)
    requires Tables(mem) && dir < |mem|
  {
    forall d :: 0 <= d < ENTRIES && Present(mem[dir][d]) ==> !Large(mem[dir][d]) && Branch(mem, dir, d)
  }

  /** A user slot of the root is vacant or leads to such a directory. */
  ghost predicate Plain(mem: Memory, root: nat, i: nat)
    requires Tables(mem) && root < |mem| && i < KERNEL_SLOT
  {
    Present(mem[root][i]) ==> Branch(mem, root, i) && NoLarge(mem, mem[root][i].frame)
  }

  /** There are frames for `n` tables. */
  predicate Enough(initialized: bool, free: set<nat>, n: nat) {
    n == 0 || (initialized && |free| >= n)
  }

  /** A frame past the direct map was taken. */
  ghost predicate TookPast(before: set<nat>, after: set<nat>) {
    exists f :: f in before && f !in after && f >= DIRECT_MAP_FRAMES
  }

  /** One of the next `n` frames in line lies past the direct map, and those before it do not. */
  ghost predicate PastWithin(d: Pmm.Desk, node: nat, n: nat)
    decreases n
  {
    n > 0 && exists e, f: nat :: Pmm.Hands(d, e, node, f) && (f >= DIRECT_MAP_FRAMES || PastWithin(e, node, n - 1))
  }

  /** The first of them is the one that is handed out. */
  lemma {:induction false} PastNext(d: Pmm.Desk, e: Pmm.Desk, node: nat, f: nat, n: nat)
    requires Pmm.Hands(d, e, node, f) && n > 0
    ensures PastWithin(d, node, n) <==> f >= DIRECT_MAP_FRAMES || PastWithin(e, node, n - 1)
  {
    if PastWithin(d, node, n) {
      var e', g: nat :| Pmm.Hands(d, e', node, g) && (g >= DIRECT_MAP_FRAMES || PastWithin(e', node, n - 1));
      Pmm.HandsUnique(d, e, e', node, f, g);
    }
  }

  /** A table frame that is there already is not free, so writing it down again changes nothing. */
  lemma {:induction false} SameEntry(owner: map<nat, Owner>, free: set<nat>, f: nat, o: Owner)
    requires f in owner && owner[f] == o && f !in free
    ensures owner[f := o] == owner && free - {f} == free
  {
  }

  lemma {:induction false} DropBoth(owner: map<nat, Owner>, free: set<nat>, f: nat, g: nat)
    ensures owner - {f} - {g} == owner - ({f} + {g}) && free + {f} + {g} == free + ({f} + {g})
    ensures owner - {f} - {} == owner - ({f} + {}) && free + {f} + {} == free + ({f} + {})
  {
  }

  /** Cutting a table off leaves the directory vacant exactly if it was the last there. */
  lemma {:induction false} CutLeaves(mem: Memory, dir: nat, d: nat)
    requires Tables(mem) && dir < |mem| && d < ENTRIES
    ensures Vacant(Put(mem, dir, d, ZERO)[dir]) <==> Only(mem[dir], d)
  {
    BootFlags();
    var m := Put(mem, dir, d, ZERO);
    assert forall j :: 0 <= j < ENTRIES && j != d ==> m[dir][j] == mem[dir][j];
  }

  /** A path whose directory is there ends with its table, or as it was. */
  lemma {:induction false} PathEnds(a: Snap, b: Snap, c: Snap, s: nat, root: nat, i: nat, d: nat, dir: nat, table: nat,
                                    ok: bool, halt: bool, initialized: bool)
    requires Hung(a, b, root, i, dir, DirOf(s, i)) && d < ENTRIES && root in b.owner && b.owner[root] == RootOf(s)
    requires Present(b.mem[dir][d]) ==> !Large(b.mem[dir][d])
    requires ok ==> Hung(b, c, dir, d, table, TableOf(s, i, d))
    requires !ok && !halt ==> c == b && (!initialized || b.free == {})
    requires !Present(a.mem[root][i]) ==> initialized
    ensures ok ==> Pathed(a, c, s, root, i, d, dir, table)
    ensures !ok && !halt ==> LeftOver(a, c, s, root, i, dir, initialized)
  {
    if ok {
      HungTwice(a, b, c, s, root, i, d, dir, table);
    } else if !halt {
      LedFacts(a.mem, root, i, dir);
      if Present(a.mem[root][i]) { SameEntry(a.owner, a.free, dir, DirOf(s, i)); } else { assert a.free == {dir}; }
    }
  }

  lemma {:induction false} PathThenPage(a: Snap, b: Snap, c: Snap, s: nat, root: nat, i: nat, d: nat, t: nat, dir: nat,
                                        table: nat, e: Entry)
    requires Pathed(a, b, s, root, i, d, dir, table) && t < ENTRIES
    requires c == b.(mem := Put(b.mem, table, t, e))
    ensures PageIn(a, c, s, root, i, d, t, dir, table, e)
  {
  }

  /** The frames that a path needs, one table at a time. */
  lemma {:induction false} PathNeeds(a: Snap, b: Snap, s: nat, root: nat, i: nat, d: nat, dir: nat, initialized: bool)
    requires Hung(a, b, root, i, dir, DirOf(s, i)) && d < ENTRIES && root != dir
    requires !Present(a.mem[root][i]) ==> initialized
    ensures Present(b.mem[dir][d]) || (initialized && b.free != {}) <==>
            Enough(initialized, a.free, Missing(a.mem, root, i, d))
  {
    LedFacts(a.mem, root, i, dir);
    if Present(a.mem[root][i]) {
      assert b.mem[dir] == a.mem[dir] && b.free == a.free;
      assert a.free != {} <==> |a.free| >= 1;
    } else {
      EnoughForTwo(initialized, a.free, dir);
    }
  }

  /** The frames in line for it likewise. */
  lemma {:induction false} PathLine(a: Snap, b: Snap, desk: Pmm.Desk, later: Pmm.Desk, node: nat, s: nat, root: nat,
                                    i: nat, d: nat, dir: nat)
    requires Hung(a, b, root, i, dir, DirOf(s, i)) && d < ENTRIES && root != dir && |a.mem| == DIRECT_MAP_FRAMES
    requires if Present(a.mem[root][i]) then later == desk else Pmm.Hands(desk, later, node, dir)
    ensures !Present(b.mem[dir][d]) && PastWithin(later, node, 1) <==>
            PastWithin(desk, node, Missing(a.mem, root, i, d))
  {
    LedFacts(a.mem, root, i, dir);
    if Present(a.mem[root][i]) {
      assert b.mem[dir] == a.mem[dir];
    } else {
      PastNext(desk, later, node, dir, 2);
    }
  }

  /** A path that ends before its directory. */
  lemma {:induction false} PathStops(desk: Pmm.Desk, node: nat, initialized: bool, halt: bool)
    requires halt <==> initialized && PastWithin(desk, node, 1)
    requires !halt ==> !initialized || Pmm.Idle(desk, node)
    ensures initialized && PastWithin(desk, node, 2) <==> halt
  {
    if halt {
      var e, f: nat :| Pmm.Hands(desk, e, node, f) && (f >= DIRECT_MAP_FRAMES || PastWithin(e, node, 0));
    }
  }

  lemma {:induction false} TookPastLater(a: set<nat>, b: set<nat>, c: set<nat>)
    requires c <= b <= a && !TookPast(a, b)
    ensures TookPast(a, c) <==> TookPast(b, c)
  {
  }

  lemma {:induction false} EnoughForTwo(initialized: bool, free: set<nat>, f: nat)
    requires f in free
    ensures Enough(initialized, free, 2) <==> initialized && free - {f} != {}
  {
    assert |free - {f}| == |free| - 1;
  }

  /** The arguments of a map that are not refused. */
  predicate Accepts(roots: map<nat, nat>, s: nat, va: nat, physical: nat) {
    UserPage(roots, s, va) && va % PAGE_SIZE == 0 && physical % PAGE_SIZE == 0
  }

  /** A user address of a space in use. */
  predicate UserPage(roots: map<nat, nat>, s: nat, va: nat) {
    s in roots && USER_BASE <= va < KERNEL_VMA
  }

  /** The low bits of a user page's entry. */
  function UserFlags(flags: bv12): bv12 { PRESENT | USER | flags }

  lemma {:induction false} UserLeafFlags(flags: bv12)
    ensures UserFlags(flags) & PRESENT != 0 && UserFlags(flags) & USER != 0
    ensures UserFlags(flags | USER) == UserFlags(flags)
    ensures UserFlags(flags) & WRITABLE == flags & WRITABLE && (flags | USER) & WRITABLE == flags & WRITABLE
  {
  }
}
