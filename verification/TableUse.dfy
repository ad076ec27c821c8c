/** Which tables a map brings in and which an unmap gives back. */
module TableUse {
  import opened PageTree
  import opened AddressSpaces

  /** No entry but that of slot `k` is present. */
  ghost predicate Only(table: seq<Entry>, k: nat) {
    forall j :: 0 <= j < |table| && j != k ==> !Present(table[j])
  }

  /** The table that the entry names. */
  predicate Leads(mem: Memory, f: nat, k: nat)
    requires Tables(mem) && f < |mem| && k < ENTRIES
  {
    Present(mem[f][k]) && mem[f][k].frame < |mem|
  }

  /** The tables on the path to a page that hold nothing beside that page. */
  ghost function Surplus(mem: Memory, root: nat, i: nat, d: nat, t: nat): set<nat>
    requires Tables(mem) && root < |mem| && i < ENTRIES && d < ENTRIES
  {
    if !Leads(mem, root, i) then {}
    else
      var dir := mem[root][i].frame;
      if Leads(mem, dir, d) && !Only(mem[mem[dir][d].frame], t) then {}
      else (if Leads(mem, dir, d) then {mem[dir][d].frame} else {}) + (if Only(mem[dir], d) then {dir} else {})
  }

  predicate Here(mem: Memory, root: nat, i: nat, d: nat, t: nat)
    requires Tables(mem) && root < |mem| && i < ENTRIES && d < ENTRIES && t < ENTRIES
  {
    Leads(mem, root, i) && Leads(mem, mem[root][i].frame, d) && !Large(mem[mem[root][i].frame][d]) &&
    Present(mem[mem[mem[root][i].frame][d].frame][t])
  }

  /** The frames that unmapping a page gives back: its table if the page was the last in it, and
      then the directory if the table was the last in that. */
  ghost function GivenBack(mem: Memory, root: nat, i: nat, d: nat, t: nat): set<nat>
    requires Tables(mem) && root < |mem| && i < ENTRIES && d < ENTRIES && t < ENTRIES
  {
    if Here(mem, root, i, d, t) then Surplus(mem, root, i, d, t) else {}
  }

  /** The two tables that `Prune` looks at, after the page's entry is gone. */
  ghost function Emptied(mem: Memory, dir: nat, d: nat): set<nat>
    requires Tables(mem) && dir < |mem| && d < ENTRIES && Leads(mem, dir, d)
  {
    if !Vacant(mem[mem[dir][d].frame]) then {}
    else {mem[dir][d].frame} + if Only(mem[dir], d) then {dir} else {}
  }

  /** Clearing the page's entry first makes them the ones above. */
  lemma {:induction false} EmptiedIsGivenBack(mem: Memory, root: nat, i: nat, d: nat, t: nat)
    requires Tables(mem) && root < |mem| && i < ENTRIES && d < ENTRIES && t < ENTRIES && Here(mem, root, i, d, t)
    requires mem[mem[root][i].frame][d].frame != mem[root][i].frame
    ensures var dir := mem[root][i].frame;
            var m := Put(mem, mem[dir][d].frame, t, ZERO);
            Leads(m, dir, d) && Emptied(m, dir, d) == GivenBack(mem, root, i, d, t)
  {
    BootFlags();
    var dir := mem[root][i].frame;
    var table := mem[dir][d].frame;
    var m := Put(mem, table, t, ZERO);
    assert forall j :: 0 <= j < ENTRIES && j != t ==> m[table][j] == mem[table][j];
    assert Vacant(m[table]) <==> Only(mem[table], t);
  }

  // ------------------------------------------------------------------------------------
  // Maps
  // ------------------------------------------------------------------------------------

  /** Memory after slot `k` of table `f` was made to lead to `g`: opened to user mode if it was
      there, otherwise hung in empty. */
  function Led(mem: Memory, f: nat, k: nat, g: nat): (r: Memory)
    requires Tables(mem) && f < |mem| && g < |mem| && k < ENTRIES
    ensures Tables(r) && |r| == |mem|
  {
    if Present(mem[f][k]) then Granted(mem, f, k) else WithDir(mem, f, k, g, TABLE_FLAGS)
  }

  lemma {:induction false} LedFacts(mem: Memory, f: nat, k: nat, g: nat)
    requires Tables(mem) && f < |mem| && g < |mem| && k < ENTRIES && f != g
    requires Present(mem[f][k]) ==> mem[f][k].frame == g
    ensures var r := Led(mem, f, k, g);
            Present(r[f][k]) && r[f][k].frame == g && (Large(r[f][k]) ==> Present(mem[f][k]) && Large(mem[f][k])) &&
            (forall j :: 0 <= j < ENTRIES && j != k ==> r[f][j] == mem[f][j]) &&
            (forall h :: 0 <= h < |mem| && h != f && h != g ==> r[h] == mem[h]) &&
            if Present(mem[f][k]) then r[g] == mem[g] else Vacant(r[g])
  {
    BootFlags();
    TableFlags();
    KeepsBits(mem[f][k].flags);
  }

  /** Memory after a page was mapped through directory `dir` and table `table`. */
  function WithPage(mem: Memory, root: nat, i: nat, d: nat, t: nat, dir: nat, table: nat, e: Entry): (r: Memory)
    requires Tables(mem) && root < |mem| && dir < |mem| && table < |mem| && i < ENTRIES && d < ENTRIES && t < ENTRIES
    ensures Tables(r) && |r| == |mem|
  {
    Put(Led(Led(mem, root, i, dir), dir, d, table), table, t, e)
  }

  /** The path is three tables, and where it was there before it is the same. */
  ghost predicate Threads(mem: Memory, root: nat, i: nat, d: nat, dir: nat, table: nat)
    requires Tables(mem) && i < ENTRIES && d < ENTRIES
  {
    root < |mem| && dir < |mem| && table < |mem| && root != dir && dir != table && root != table &&
    (Present(mem[root][i]) ==>
      mem[root][i].frame == dir &&
      (Present(mem[dir][d]) ==> mem[dir][d].frame == table && !Large(mem[dir][d])))
  }

  /** Once the page is mapped, the tables that hold nothing else are those that held nothing else
      before and those that are new. */
  lemma {:induction false} SurplusAfter(mem: Memory, root: nat, i: nat, d: nat, t: nat, dir: nat, table: nat, e: Entry)
    requires Tables(mem) && i < ENTRIES && d < ENTRIES && t < ENTRIES && Present(e)
    requires Threads(mem, root, i, d, dir, table)
    ensures var added := if !Present(mem[root][i]) then {dir, table} else if !Present(mem[dir][d]) then {table} else {};
            GivenBack(WithPage(mem, root, i, d, t, dir, table, e), root, i, d, t) ==
            Surplus(mem, root, i, d, t) + added
  {
    var m := Led(mem, root, i, dir);
    LedFacts(mem, root, i, dir);
    LedFacts(m, dir, d, table);
    var n := Led(m, dir, d, table);
    var r := WithPage(mem, root, i, d, t, dir, table, e);
    assert forall j :: 0 <= j < ENTRIES && j != t ==> r[table][j] == n[table][j];
    assert Only(r[table], t) <==> Only(n[table], t);
    assert Only(r[dir], d) <==> Only(m[dir], d);
    if Present(mem[root][i]) {
      assert m[dir] == mem[dir];
      if Present(mem[dir][d]) { assert m[table] == mem[table]; }
    }
  }

  // ------------------------------------------------------------------------------------
  // A map and an unmap
  // ------------------------------------------------------------------------------------

  /** A frame that is a table and stays one, and one that becomes one. */
  ghost predicate Kept(a: Snap, f: nat, o: Owner) { f in a.owner && a.owner[f] == o && f !in a.free }

  ghost predicate New(a: Snap, f: nat) { f !in a.owner && f in a.free }

  /** Slot `k` of table `f` was made to lead to table `g`. */
  ghost predicate Hung(a: Snap, b: Snap, f: nat, k: nat, g: nat, o: Owner) {
    Tables(a.mem) && f < |a.mem| && g < |a.mem| && k < ENTRIES && b.mem == Led(a.mem, f, k, g) &&
    b.owner == a.owner[g := o] && b.free == a.free - {g} &&
    if Present(a.mem[f][k]) then a.mem[f][k].frame == g && Kept(a, g, o) else New(a, g)
  }

  /** The path to a page was made, through `dir` and `table`. */
  ghost predicate Pathed(a: Snap, b: Snap, s: nat, root: nat, i: nat, d: nat, dir: nat, table: nat) {
    Tables(a.mem) && i < ENTRIES && d < ENTRIES && Threads(a.mem, root, i, d, dir, table) &&
    b.mem == Led(Led(a.mem, root, i, dir), dir, d, table) &&
    b.owner == a.owner[dir := DirOf(s, i)][table := TableOf(s, i, d)] && b.free == a.free - {dir, table} &&
    (if Present(a.mem[root][i]) then Kept(a, dir, DirOf(s, i)) else New(a, dir)) &&
    if Present(a.mem[root][i]) && Present(a.mem[dir][d]) then Kept(a, table, TableOf(s, i, d)) else New(a, table)
  }

  lemma {:induction false} HungTwice(a: Snap, b: Snap, c: Snap, s: nat, root: nat, i: nat, d: nat, dir: nat, table: nat)
    requires Hung(a, b, root, i, dir, DirOf(s, i)) && Hung(b, c, dir, d, table, TableOf(s, i, d))
    requires root != dir && dir != table && root != table && (Present(b.mem[dir][d]) ==> !Large(b.mem[dir][d]))
    ensures Pathed(a, c, s, root, i, d, dir, table)
  {
    LedFacts(a.mem, root, i, dir);
  }

  /** A page was mapped through `dir` and `table`, with entry `e`. */
  ghost predicate PageIn(a: Snap, b: Snap, s: nat, root: nat, i: nat, d: nat, t: nat, dir: nat, table: nat, e: Entry) {
    t < ENTRIES && exists c: Snap ::
      Pathed(a, c, s, root, i, d, dir, table) && b == c.(mem := Put(c.mem, table, t, e))
  }

  /** What a refused map leaves: a directory that was there is open to user mode; if there was none
      and one frame was free, an empty directory is left; otherwise nothing. */
  ghost predicate LeftOver(a: Snap, b: Snap, s: nat, root: nat, i: nat, dir: nat, initialized: bool) {
    Tables(a.mem) && root < |a.mem| && i < ENTRIES &&
    if Present(a.mem[root][i]) then b.mem == Granted(a.mem, root, i) && b.owner == a.owner && b.free == a.free
    else if !initialized || a.free == {} then b == a
    else
      New(a, dir) && b.owner == a.owner[dir := DirOf(s, i)] && a.free == {dir} && b.free == {} &&
      dir < |a.mem| && b.mem == WithDir(a.mem, root, i, dir, TABLE_FLAGS) && Vacant(b.mem[dir])
  }

  /** A page was unmapped. */
  ghost predicate PageOut(a: Snap, b: Snap, root: nat, i: nat, d: nat, t: nat) {
    Tables(a.mem) && root < |a.mem| && i < ENTRIES && d < ENTRIES && t < ENTRIES &&
    b.owner == a.owner - GivenBack(a.mem, root, i, d, t) && b.free == a.free + GivenBack(a.mem, root, i, d, t)
  }

  /** Mapping a page and unmapping it again gives back what the map took, and with it the tables
      on the path that held nothing else before. */
  lemma {:induction false} MapThenUnmap(a: Snap, b: Snap, c: Snap, s: nat, root: nat, i: nat, d: nat, t: nat, dir: nat,
                                        table: nat, e: Entry)
    requires Present(e) && PageIn(a, b, s, root, i, d, t, dir, table, e) && PageOut(b, c, root, i, d, t)
    ensures c.owner == a.owner - Surplus(a.mem, root, i, d, t) && c.free == a.free + Surplus(a.mem, root, i, d, t)
  {
    var p: Snap :| Pathed(a, p, s, root, i, d, dir, table) && b == p.(mem := Put(p.mem, table, t, e));
    assert b.mem == WithPage(a.mem, root, i, d, t, dir, table, e);
    SurplusAfter(a.mem, root, i, d, t, dir, table, e);
    var kept := Surplus(a.mem, root, i, d, t);
    var added := if !Present(a.mem[root][i]) then {dir, table} else if !Present(a.mem[dir][d]) then {table} else {};
    assert kept <= {dir, table} && forall f :: f in kept ==> f !in added;
    Undone(a, dir, table, DirOf(s, i), TableOf(s, i, d), kept, added);
  }

  /** Two frames became tables or were tables; taking back the new ones and some of the others. */
  lemma {:induction false} Undone(a: Snap, x: nat, y: nat, ox: Owner, oy: Owner, kept: set<nat>, added: set<nat>)
    requires x != y && kept <= {x, y} && added <= {x, y} && kept !! added
    requires (if x in added then New(a, x) else Kept(a, x, ox)) && if y in added then New(a, y) else Kept(a, y, oy)
    ensures a.owner[x := ox][y := oy] - (kept + added) == a.owner - kept
    ensures a.free - {x, y} + (kept + added) == a.free + kept
  {
    forall f ensures f in a.free - {x, y} + (kept + added) <==> f in a.free + kept {
      if f == x || f == y { assert f in {x, y}; }
    }
  }

  /** Nothing is given back beyond what was taken if and only if there was no directory, or the
      table was missing in a directory that leads somewhere else, or the table holds another page. */
  lemma {:induction false} RestoredIff(mem: Memory, root: nat, i: nat, d: nat, t: nat)
    requires Tables(mem) && root < |mem| && i < ENTRIES && d < ENTRIES
    ensures Surplus(mem, root, i, d, t) == {} <==>
            (!Leads(mem, root, i) ||
             var dir := mem[root][i].frame;
             if Leads(mem, dir, d) then !Only(mem[mem[dir][d].frame], t) else !Only(mem[dir], d))
  {
    if Leads(mem, root, i) {
      var dir := mem[root][i].frame;
      if Leads(mem, dir, d) {
        assert Only(mem[mem[dir][d].frame], t) ==> mem[dir][d].frame in Surplus(mem, root, i, d, t);
      } else {
        assert Only(mem[dir], d) ==> dir in Surplus(mem, root, i, d, t);
      }
    }
  }

  /** Such a memory: a root that leads to an empty directory. */
  lemma {:induction false} SurplusWitness()
    ensures var mem := [EmptyTable()[0 := Entry(1, PRESENT)], EmptyTable()];
            Tables(mem) && Surplus(mem, 0, 0, 0, 0) == {1}
  {
    BootFlags();
    var mem := [EmptyTable()[0 := Entry(1, PRESENT)], EmptyTable()];
    assert Leads(mem, 0, 0) && !Leads(mem, 1, 0) && Only(mem[1], 0);
  }
}
