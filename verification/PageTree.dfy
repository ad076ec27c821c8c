/** Three-level PAE page tables as they lie in physical frames, and who owns each frame.

    The format is PAE paging, section 4.4 of volume 3A of the Intel SDM: a root of four
    entries, directories and tables of 512.  Every frame that holds a user-half structure
    has one owner; that, and the fact that owners point back at their frames, is what makes
    updates in one table invisible everywhere else. */
module PageTree {

  const ENTRIES: nat := 512
  const PRESENT: bv12 := 0x001
  const WRITABLE: bv12 := 0x002
  const USER: bv12 := 0x004
  const LARGE: bv12 := 0x080
  /** Index of the root entry that covers the kernel half. */
  const KERNEL_SLOT: nat := 3

  /** A table entry: the frame it names and its low twelve bits. */
  datatype Entry = Entry(frame: nat, flags: bv12)

  const ZERO: Entry := Entry(0, 0)

  predicate Present(e: Entry) { e.flags & PRESENT != 0 }
  predicate Large(e: Entry) { e.flags & LARGE != 0 }
  predicate Writable(e: Entry) { e.flags & WRITABLE != 0 }
  predicate ForUser(e: Entry) { e.flags & USER != 0 }

  type Memory = seq<seq<Entry>>

  ghost predicate Tables(mem: Memory) {
    forall f :: 0 <= f < |mem| ==> |mem[f]| == ENTRIES
  }

  /** A page's frame and the low bits of its entry. */
  datatype Lookup = Miss | Hit(frame: nat, flags: bv12)

  predicate Names(l: Lookup, f: nat) { l.Hit? && l.frame == f }

  /** What an entry of the last level says. */
  function LeafOf(e: Entry): Lookup { if Present(e) then Hit(e.frame, e.flags) else Miss }

  /** The lookup below a directory. */
  function WalkDir(mem: Memory, dir: nat, d: nat, t: nat): Lookup
    requires Tables(mem) && d < ENTRIES && t < ENTRIES
  {
    if dir >= |mem| || !Present(mem[dir][d]) then Miss
    else if Large(mem[dir][d]) then Hit(mem[dir][d].frame / ENTRIES * ENTRIES + t, mem[dir][d].flags)
    else if mem[dir][d].frame >= |mem| then Miss
    else LeafOf(mem[mem[dir][d].frame][t])
  }

  /** The page frame that a space's tables give for root slot `i`, directory slot `d` and
      table slot `t`. */
  function Walk(mem: Memory, root: nat, i: nat, d: nat, t: nat): Lookup
    requires Tables(mem) && i < 4 && d < ENTRIES && t < ENTRIES
  {
    if root >= |mem| || !Present(mem[root][i]) then Miss
    else WalkDir(mem, mem[root][i].frame, d, t)
  }

  // ------------------------------------------------------------------------------------
  // Ownership
  // ------------------------------------------------------------------------------------

  datatype Owner = RootOf(s: nat) | DirOf(s: nat, i: nat) | TableOf(s: nat, i: nat, d: nat)

  /** Space `s` has a present directory in user slot `i`. */
  predicate HasDir(mem: Memory, roots: map<nat, nat>, s: nat, i: nat)
    requires Tables(mem)
  {
    s in roots && i < KERNEL_SLOT && roots[s] < |mem| && Present(mem[roots[s]][i]) && mem[roots[s]][i].frame < |mem|
  }

  function DirFrame(mem: Memory, roots: map<nat, nat>, s: nat, i: nat): nat
    requires Tables(mem) && HasDir(mem, roots, s, i)
  {
    mem[roots[s]][i].frame
  }

  /** An entry of an upper level that is open to user mode is writable, and outside the kernel's own
      space all are open. */
  predicate Gate(s: nat, e: Entry) { (ForUser(e) ==> Writable(e)) && (s != 0 ==> ForUser(e)) }

  /** Each present entry of a structure names a frame whose owner is the matching child. */
  ghost predicate RootOk(mem: Memory, owner: map<nat, Owner>, kdir: nat, s: nat, f: nat)
    requires Tables(mem) && f < |mem|
  {
    mem[f][KERNEL_SLOT] == Entry(kdir, PRESENT) &&
    forall i :: 0 <= i < KERNEL_SLOT && Present(mem[f][i]) ==>
      Gate(s, mem[f][i]) && mem[f][i].frame in owner && owner[mem[f][i].frame] == DirOf(s, i)
  }

  ghost predicate DirOk(mem: Memory, owner: map<nat, Owner>, s: nat, i: nat, f: nat)
    requires Tables(mem) && f < |mem|
  {
    forall d :: 0 <= d < ENTRIES && Present(mem[f][d]) ==>
      Gate(s, mem[f][d]) && !Large(mem[f][d]) && mem[f][d].frame in owner &&
      owner[mem[f][d].frame] == TableOf(s, i, d)
  }

  /** The frame is where its owner says it is. */
  ghost predicate Placed(mem: Memory, roots: map<nat, nat>, owner: map<nat, Owner>, kdir: nat, f: nat)
    requires Tables(mem) && f in owner && f < |mem|
  {
    match owner[f]
    case RootOf(s) => s in roots && roots[s] == f && RootOk(mem, owner, kdir, s, f)
    case DirOf(s, i) => HasDir(mem, roots, s, i) && DirFrame(mem, roots, s, i) == f && DirOk(mem, owner, s, i, f)
    case TableOf(s, i, d) =>
      HasDir(mem, roots, s, i) && d < ENTRIES &&
      var dir := DirFrame(mem, roots, s, i);
      dir in owner && owner[dir] == DirOf(s, i) && Present(mem[dir][d]) && mem[dir][d].frame == f
  }

  /** The page-table forest of all spaces in use. */
  ghost predicate Forest(mem: Memory, roots: map<nat, nat>, owner: map<nat, Owner>, kdir: nat) {
    Tables(mem) &&
    (forall f :: f in owner ==> f < |mem|) &&
    (forall f {:trigger Placed(mem, roots, owner, kdir, f)} :: f in owner ==> Placed(mem, roots, owner, kdir, f)) &&
    (forall s :: s in roots ==> roots[s] in owner && owner[roots[s]] == RootOf(s))
  }

  /** The frames owned on behalf of space `s`. */
  function FramesOf(owner: map<nat, Owner>, s: nat): set<nat> {
    set f | f in owner && owner[f].s == s
  }

  /** The frames that a walk from the root of space `s` can reach in the user half. */
  ghost function Reached(mem: Memory, root: nat): set<nat>
    requires Tables(mem) && root < |mem|
  {
    {root} +
    (set i | 0 <= i < KERNEL_SLOT && Present(mem[root][i]) :: mem[root][i].frame) +
    (set i, d | 0 <= i < KERNEL_SLOT && Present(mem[root][i]) && mem[root][i].frame < |mem| &&
                0 <= d < ENTRIES && Present(mem[mem[root][i].frame][d]) :: mem[mem[root][i].frame][d].frame)
  }

  /** The frames accounted to a space are exactly those reachable from its root. */
  lemma {:induction false} OwnedIsReached(mem: Memory, roots: map<nat, nat>, owner: map<nat, Owner>, kdir: nat, s: nat)
    requires Forest(mem, roots, owner, kdir) && s in roots
    ensures roots[s] < |mem| && FramesOf(owner, s) == Reached(mem, roots[s])
  {
    var root := roots[s];
    assert Placed(mem, roots, owner, kdir, root);
    forall f | f in FramesOf(owner, s) ensures f in Reached(mem, root) {
      assert Placed(mem, roots, owner, kdir, f);
    }
    forall f | f in Reached(mem, root) ensures f in FramesOf(owner, s) {
      if f != root {
        if i :| 0 <= i < KERNEL_SLOT && Present(mem[root][i]) && mem[root][i].frame == f {
          assert owner[f] == DirOf(s, i);
        } else {
          var i, d :| 0 <= i < KERNEL_SLOT && Present(mem[root][i]) && mem[root][i].frame < |mem| &&
                      0 <= d < ENTRIES && Present(mem[mem[root][i].frame][d]) && mem[mem[root][i].frame][d].frame == f;
          assert Placed(mem, roots, owner, kdir, mem[root][i].frame);
          assert owner[f] == TableOf(s, i, d);
        }
      }
    }
  }

  // ------------------------------------------------------------------------------------
  // Updates
  // ------------------------------------------------------------------------------------

  function Put(mem: Memory, f: nat, k: nat, e: Entry): (r: Memory)
    requires Tables(mem) && f < |mem| && k < ENTRIES
    ensures Tables(r)
  {
    mem[f := mem[f][k := e]]
  }

  function EmptyTable(): seq<Entry> { seq(ENTRIES, _ => ZERO) }

  function Wipe(mem: Memory, f: nat): (r: Memory)
    requires Tables(mem) && f < |mem|
    ensures Tables(r)
  {
    mem[f := EmptyTable()]
  }

  ghost predicate Vacant(table: seq<Entry>) {
    forall k :: 0 <= k < |table| ==> !Present(table[k])
  }

  /** Every user-half lookup of every space is the same. */
  ghost predicate SameWalks(a: Memory, b: Memory, roots: map<nat, nat>)
    requires Tables(a) && Tables(b)
  {
    forall s, i, d, t :: s in roots && 0 <= i < KERNEL_SLOT && 0 <= d < ENTRIES && 0 <= t < ENTRIES ==>
      Walk(b, roots[s], i, d, t) == Walk(a, roots[s], i, d, t)
  }

  /** One slot of one space changed to `l`; every other user-half lookup is the same. */
  ghost predicate OneWalk(a: Memory, b: Memory, roots: map<nat, nat>, s0: nat, i0: nat, d0: nat, t0: nat, l: Lookup)
    requires Tables(a) && Tables(b)
  {
    forall s, i, d, t :: s in roots && 0 <= i < KERNEL_SLOT && 0 <= d < ENTRIES && 0 <= t < ENTRIES ==>
      Walk(b, roots[s], i, d, t) == if s == s0 && i == i0 && d == d0 && t == t0 then l else Walk(a, roots[s], i, d, t)
  }

  /** What the entries along a walk name. */
  lemma {:induction false} Path(mem: Memory, roots: map<nat, nat>, owner: map<nat, Owner>, kdir: nat, s: nat, i: nat,
                                d: nat)
    requires Forest(mem, roots, owner, kdir) && s in roots && i < KERNEL_SLOT && d < ENTRIES
    ensures roots[s] < |mem| && owner[roots[s]] == RootOf(s)
    ensures Present(mem[roots[s]][i]) ==>
              var dir := mem[roots[s]][i].frame;
              dir in owner && owner[dir] == DirOf(s, i) && dir < |mem| && Gate(s, mem[roots[s]][i]) &&
              (Present(mem[dir][d]) ==>
                 Gate(s, mem[dir][d]) && !Large(mem[dir][d]) && mem[dir][d].frame in owner &&
                 mem[dir][d].frame < |mem| && owner[mem[dir][d].frame] == TableOf(s, i, d))
  {
    assert Placed(mem, roots, owner, kdir, roots[s]);
    if Present(mem[roots[s]][i]) { assert Placed(mem, roots, owner, kdir, mem[roots[s]][i].frame); }
  }

  /** Writing an entry of a last-level table changes that one lookup. */
  lemma {:induction false} LeafWrite(mem: Memory, roots: map<nat, nat>, owner: map<nat, Owner>, kdir: nat, f: nat,
                                     t: nat, e: Entry)
    requires Forest(mem, roots, owner, kdir) && f in owner && owner[f].TableOf? && t < ENTRIES
    ensures Forest(Put(mem, f, t, e), roots, owner, kdir)
    ensures OneWalk(mem, Put(mem, f, t, e), roots, owner[f].s, owner[f].i, owner[f].d, t, LeafOf(e))
  {
    var m := Put(mem, f, t, e);
    forall g | g in owner ensures Placed(m, roots, owner, kdir, g) { assert Placed(mem, roots, owner, kdir, g); }
    assert Placed(mem, roots, owner, kdir, f);
    forall s2, i2, d2, t2 | s2 in roots && 0 <= i2 < KERNEL_SLOT && 0 <= d2 < ENTRIES && 0 <= t2 < ENTRIES
      ensures Walk(m, roots[s2], i2, d2, t2) ==
              if s2 == owner[f].s && i2 == owner[f].i && d2 == owner[f].d && t2 == t then LeafOf(e)
              else Walk(mem, roots[s2], i2, d2, t2)
    {
      Path(mem, roots, owner, kdir, s2, i2, d2);
    }
  }

  /** Changing the flags of an upper-level entry, not what it names, changes no lookup. */
  lemma {:induction false} Reflag(mem: Memory, roots: map<nat, nat>, owner: map<nat, Owner>, kdir: nat, f: nat, k: nat,
                                  e: Entry)
    requires Forest(mem, roots, owner, kdir) && f in owner && !owner[f].TableOf? && k < ENTRIES
    requires Present(mem[f][k]) && Present(e) && e.frame == mem[f][k].frame && Large(e) == Large(mem[f][k])
    requires (owner[f].RootOf? ==> k < KERNEL_SLOT) && Gate(owner[f].s, e)
    ensures Forest(Put(mem, f, k, e), roots, owner, kdir)
    ensures SameWalks(mem, Put(mem, f, k, e), roots)
  {
    var m := Put(mem, f, k, e);
    forall g | g in owner ensures Placed(m, roots, owner, kdir, g) { assert Placed(mem, roots, owner, kdir, g); }
    forall s2, i2, d2, t2 | s2 in roots && 0 <= i2 < KERNEL_SLOT && 0 <= d2 < ENTRIES && 0 <= t2 < ENTRIES
      ensures Walk(m, roots[s2], i2, d2, t2) == Walk(mem, roots[s2], i2, d2, t2)
    {
      Path(mem, roots, owner, kdir, s2, i2, d2);
    }
  }

  function WithDir(mem: Memory, root: nat, i: nat, g: nat, flags: bv12): (r: Memory)
    requires Tables(mem) && root < |mem| && g < |mem| && i < ENTRIES
    ensures Tables(r)
  {
    Put(Wipe(mem, g), root, i, Entry(g, flags))
  }

  /** Hanging an empty directory into a vacant root slot changes no lookup. */
  lemma {:induction false} AddDir(mem: Memory, roots: map<nat, nat>, owner: map<nat, Owner>, kdir: nat, s: nat, i: nat,
                                  g: nat, flags: bv12)
    requires Forest(mem, roots, owner, kdir) && s in roots && i < KERNEL_SLOT && roots[s] < |mem|
    requires !Present(mem[roots[s]][i]) && g < |mem| && g !in owner && flags & PRESENT != 0 && Gate(s, Entry(g, flags))
    ensures Forest(WithDir(mem, roots[s], i, g, flags), roots, owner[g := DirOf(s, i)], kdir)
    ensures SameWalks(mem, WithDir(mem, roots[s], i, g, flags), roots)
  {
    var m, o := WithDir(mem, roots[s], i, g, flags), owner[g := DirOf(s, i)];
    assert Vacant(m[g]);
    forall f | f in o ensures Placed(m, roots, o, kdir, f) {
      if f in owner { assert Placed(mem, roots, owner, kdir, f); }
    }
    forall s2, i2, d2, t2 | s2 in roots && 0 <= i2 < KERNEL_SLOT && 0 <= d2 < ENTRIES && 0 <= t2 < ENTRIES
      ensures Walk(m, roots[s2], i2, d2, t2) == Walk(mem, roots[s2], i2, d2, t2)
    {
      Path(mem, roots, owner, kdir, s2, i2, d2);
    }
  }

  /** Hanging an empty table into a vacant directory slot changes no lookup. */
  lemma {:induction false} AddTable(mem: Memory, roots: map<nat, nat>, owner: map<nat, Owner>, kdir: nat, dir: nat,
                                    d: nat, g: nat, flags: bv12)
    requires Forest(mem, roots, owner, kdir) && dir in owner && owner[dir].DirOf? && d < ENTRIES
    requires !Present(mem[dir][d]) && g < |mem| && g !in owner && flags & PRESENT != 0 && flags & LARGE == 0
    requires Gate(owner[dir].s, Entry(g, flags))
    ensures var o := owner[g := TableOf(owner[dir].s, owner[dir].i, d)];
            Forest(WithDir(mem, dir, d, g, flags), roots, o, kdir)
    ensures SameWalks(mem, WithDir(mem, dir, d, g, flags), roots)
  {
    var m, o := WithDir(mem, dir, d, g, flags), owner[g := TableOf(owner[dir].s, owner[dir].i, d)];
    assert Vacant(m[g]);
    assert Placed(mem, roots, owner, kdir, dir);
    forall f | f in o ensures Placed(m, roots, o, kdir, f) {
      if f in owner { assert Placed(mem, roots, owner, kdir, f); }
    }
    forall s2, i2, d2, t2 | s2 in roots && 0 <= i2 < KERNEL_SLOT && 0 <= d2 < ENTRIES && 0 <= t2 < ENTRIES
      ensures Walk(m, roots[s2], i2, d2, t2) == Walk(mem, roots[s2], i2, d2, t2)
    {
      Path(mem, roots, owner, kdir, s2, i2, d2);
    }
  }

  /** Cutting off a vacant table changes no lookup. */
  lemma {:induction false} DropTable(mem: Memory, roots: map<nat, nat>, owner: map<nat, Owner>, kdir: nat, dir: nat,
                                     d: nat)
    requires Forest(mem, roots, owner, kdir) && dir in owner && owner[dir].DirOf? && d < ENTRIES && dir < |mem|
    requires Present(mem[dir][d]) && mem[dir][d].frame < |mem| && Vacant(mem[mem[dir][d].frame])
    ensures Forest(Put(mem, dir, d, ZERO), roots, owner - {mem[dir][d].frame}, kdir)
    ensures SameWalks(mem, Put(mem, dir, d, ZERO), roots)
  {
    var m, o := Put(mem, dir, d, ZERO), owner - {mem[dir][d].frame};
    assert Placed(mem, roots, owner, kdir, dir);
    forall f | f in o ensures Placed(m, roots, o, kdir, f) {
      assert Placed(mem, roots, owner, kdir, f);
    }
    forall s2, i2, d2, t2 | s2 in roots && 0 <= i2 < KERNEL_SLOT && 0 <= d2 < ENTRIES && 0 <= t2 < ENTRIES
      ensures Walk(m, roots[s2], i2, d2, t2) == Walk(mem, roots[s2], i2, d2, t2)
    {
      Path(mem, roots, owner, kdir, s2, i2, d2);
    }
  }

  /** Cutting off a vacant directory changes no lookup. */
  lemma {:induction false} DropDir(mem: Memory, roots: map<nat, nat>, owner: map<nat, Owner>, kdir: nat, s: nat, i: nat)
    requires Forest(mem, roots, owner, kdir) && HasDir(mem, roots, s, i) && Vacant(mem[DirFrame(mem, roots, s, i)])
    ensures Forest(Put(mem, roots[s], i, ZERO), roots, owner - {DirFrame(mem, roots, s, i)}, kdir)
    ensures SameWalks(mem, Put(mem, roots[s], i, ZERO), roots)
  {
    var m, o := Put(mem, roots[s], i, ZERO), owner - {DirFrame(mem, roots, s, i)};
    Path(mem, roots, owner, kdir, s, i, 0);
    forall f | f in o ensures Placed(m, roots, o, kdir, f) {
      assert Placed(mem, roots, owner, kdir, f);
    }
    forall s2, i2, d2, t2 | s2 in roots && 0 <= i2 < KERNEL_SLOT && 0 <= d2 < ENTRIES && 0 <= t2 < ENTRIES
      ensures Walk(m, roots[s2], i2, d2, t2) == Walk(mem, roots[s2], i2, d2, t2)
    {
      Path(mem, roots, owner, kdir, s2, i2, d2);
    }
  }

  function WithRoot(mem: Memory, g: nat, kdir: nat): (r: Memory)
    requires Tables(mem) && g < |mem|
    ensures Tables(r)
  {
    mem[g := EmptyTable()[KERNEL_SLOT := Entry(kdir, PRESENT)]]
  }

  /** A new root shares the kernel half and disturbs nobody. */
  lemma {:induction false} AddRoot(mem: Memory, roots: map<nat, nat>, owner: map<nat, Owner>, kdir: nat, s: nat, g: nat)
    requires Forest(mem, roots, owner, kdir) && s !in roots && g < |mem| && g !in owner
    ensures Forest(WithRoot(mem, g, kdir), roots[s := g], owner[g := RootOf(s)], kdir)
    ensures SameWalks(mem, WithRoot(mem, g, kdir), roots)
  {
    var m, r, o := WithRoot(mem, g, kdir), roots[s := g], owner[g := RootOf(s)];
    forall f | f in o ensures Placed(m, r, o, kdir, f) {
      if f in owner { assert Placed(mem, roots, owner, kdir, f); }
    }
    forall s2, i2, d2, t2 | s2 in roots && 0 <= i2 < KERNEL_SLOT && 0 <= d2 < ENTRIES && 0 <= t2 < ENTRIES
      ensures Walk(m, roots[s2], i2, d2, t2) == Walk(mem, roots[s2], i2, d2, t2)
    {
      Path(mem, roots, owner, kdir, s2, i2, d2);
    }
  }

  /** A new root maps nothing in the user half. */
  lemma {:induction false} NewRootIsEmpty(mem: Memory, g: nat, kdir: nat, i: nat, d: nat, t: nat)
    requires Tables(mem) && g < |mem| && i < KERNEL_SLOT && d < ENTRIES && t < ENTRIES
    ensures Walk(WithRoot(mem, g, kdir), g, i, d, t) == Miss
  {
  }

  /** Forgetting a whole space leaves the rest of the forest intact. */
  lemma {:induction false} DropSpace(mem: Memory, roots: map<nat, nat>, owner: map<nat, Owner>, kdir: nat, s: nat)
    requires Forest(mem, roots, owner, kdir) && s in roots
    ensures Forest(mem, roots - {s}, owner - FramesOf(owner, s), kdir)
  {
    var r, o := roots - {s}, owner - FramesOf(owner, s);
    forall f | f in o ensures Placed(mem, r, o, kdir, f) {
      assert Placed(mem, roots, owner, kdir, f);
    }
  }
}
