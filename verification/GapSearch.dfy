/** The first-fit search for an aligned gap between intervals: its cursor arithmetic, and the
    exact condition under which it returns the lowest fitting address. */
module GapSearch {
  import opened Bits
  import opened IntervalTree

  /** The next multiple of `alignment`, or 0 when it does not fit in 32 bits. */
  function AlignUp(value: nat, alignment: nat): nat {
    if alignment <= 1 then value
    else
      var aligned := AndNot(value + alignment - 1, alignment - 1);
      if aligned > U32_MAX then 0 else aligned
  }

  function AddFitsLimit(start: nat, length: nat, limit: nat): bool {
    start + length <= limit
  }

  datatype GapState = GapState(cursor: nat, maxAddr: nat, length: nat, alignment: nat, result: nat, found: bool)

  /** What the search does at one interval. */
  function Visit(st: GapState, iv: Interval): GapState {
    if iv.end > st.cursor then
      var gapEnd := if iv.start > st.maxAddr then st.maxAddr else iv.start;
      if AddFitsLimit(st.cursor, st.length, gapEnd) then st.(result := st.cursor, found := true)
      else
        var next := AlignUp(iv.end, st.alignment);
        var next := if next < st.cursor then st.maxAddr else next;
        st.(cursor := if next > st.maxAddr then st.maxAddr else next)
    else st
  }

  function Scan(st: GapState, s: seq<Interval>): GapState
    decreases |s|
  {
    if s == [] || st.found then st else Scan(Visit(st, s[0]), s[1..])
  }

  lemma {:induction false} ScanConcat(st: GapState, a: seq<Interval>, b: seq<Interval>)
    ensures Scan(st, a + b) == Scan(Scan(st, a), b)
    decreases |a|
  {
    if a == [] {
      assert a + b == b;
    } else if st.found {
    } else {
      assert (a + b)[1..] == a[1..] + b;
      ScanConcat(Visit(st, a[0]), a[1..], b);
    }
  }

  lemma {:induction false} ScanKeeps(st: GapState, s: seq<Interval>)
    ensures var r := Scan(st, s); r.maxAddr == st.maxAddr && r.length == st.length && r.alignment == st.alignment
    decreases |s|
  {
    if s != [] && !st.found { ScanKeeps(Visit(st, s[0]), s[1..]); }
  }

  datatype Gap = NoGap | Gap(start: nat)

  /** The state in which the walk over the tree starts. */
  function Start(minAddr: nat, maxAddr: nat, length: nat, alignment: nat): GapState {
    GapState(AlignUp(minAddr, alignment), maxAddr, length, alignment, 0, false)
  }

  /** The requests the search turns down before it looks at any interval. */
  predicate Refused(minAddr: nat, maxAddr: nat, length: nat, alignment: nat) {
    length == 0 || minAddr >= maxAddr || alignment == 0 || And(alignment, alignment - 1) != 0 ||
    AlignUp(minAddr, alignment) < minAddr || AlignUp(minAddr, alignment) >= maxAddr
  }

  function Conclude(st: GapState): Gap {
    if st.found then Gap(st.result)
    else if AddFitsLimit(st.cursor, st.length, st.maxAddr) then Gap(st.cursor)
    else NoGap
  }

  /** The whole search over a list of intervals. */
  function FindGap(s: seq<Interval>, minAddr: nat, maxAddr: nat, length: nat, alignment: nat): Gap {
    if Refused(minAddr, maxAddr, length, alignment) then NoGap
    else Conclude(Scan(Start(minAddr, maxAddr, length, alignment), s))
  }

  /** A sound request: a non-empty range, a non-empty window of 32-bit addresses, and a
      power of two to align to. */
  predicate Request(minAddr: nat, maxAddr: nat, length: nat, alignment: nat) {
    length > 0 && minAddr < maxAddr <= U32_MAX && PowerOfTwo(alignment)
  }

  /** Address `a` is aligned, its range lies in the window and meets no interval. */
  ghost predicate Fits(s: seq<Interval>, minAddr: nat, maxAddr: nat, length: nat, alignment: nat, a: nat)
    requires alignment > 0
  {
    minAddr <= a && a % alignment == 0 && a + length <= maxAddr &&
    forall x :: x in s ==> a + length <= x.start || x.end <= a
  }

  /** The answer is the lowest fitting address, or that there is none. */
  ghost predicate Lowest(s: seq<Interval>, minAddr: nat, maxAddr: nat, length: nat, alignment: nat, g: Gap)
    requires alignment > 0
  {
    match g
    case NoGap => forall a :: !Fits(s, minAddr, maxAddr, length, alignment, a)
    case Gap(r) => Fits(s, minAddr, maxAddr, length, alignment, r) &&
                   forall a :: Fits(s, minAddr, maxAddr, length, alignment, a) ==> r <= a
  }

  /** The one family of requests the search answers wrongly: a window that starts at address
      0, a lowest interval that leaves too little room below it, and whose end has no
      representable multiple of the alignment above it. */
  predicate Trap(s: seq<Interval>, minAddr: nat, maxAddr: nat, length: nat, alignment: nat) {
    minAddr == 0 && s != [] && s[0].end + alignment > U32_MAX + 1 && s[0].start < length <= maxAddr
  }

  ghost predicate U32Intervals(s: seq<Interval>) {
    forall x :: x in s ==> x.end <= U32_MAX
  }

  /** The least multiple of `a` that is not below `v`. */
  function Ceiling(v: nat, a: nat): nat
    requires a > 0
  {
    v + a - 1 - (v + a - 1) % a
  }

  lemma {:induction false} CeilingIsMultiple(v: nat, a: nat)
    requires a > 0
    ensures Ceiling(v, a) % a == 0 && v <= Ceiling(v, a) < v + a
  {
    var x := v + a - 1;
    assert x == a * (x / a) + x % a;
    ModUnique(Ceiling(v, a), a, x / a, 0);
  }

  lemma {:induction false} CeilingIsLeast(v: nat, a: nat, m: nat)
    requires a > 0 && m % a == 0 && v <= m
    ensures Ceiling(v, a) <= m
  {
    CeilingIsMultiple(v, a);
    if Ceiling(v, a) > m { MultipleGap(a, m, Ceiling(v, a)); }
  }

  lemma {:induction false} MulGap(a: nat, k: int, q: int)
    requires a * k < a * q
    ensures a * k + a <= a * q
  {
    assert a * (q - k) == a * q - a * k;
    if q - k <= 0 { MulAtMost(a, q - k); }
    MulAtLeast(a, q - k);
  }

  lemma {:induction false} MulAtMost(a: nat, k: int)
    requires k <= 0
    ensures a * k <= 0
  {
  }

  lemma {:induction false} AlignUpIsCeiling(v: nat, a: nat)
    requires PowerOfTwo(a) && v <= U32_MAX
    ensures AlignUp(v, a) == if Ceiling(v, a) > U32_MAX then 0 else Ceiling(v, a)
  {
    AndNotRoundsDown(v + a - 1, a);
  }

  lemma {:induction false} MultipleGap(a: nat, c: nat, d: nat)
    requires a > 0 && c % a == 0 && d % a == 0 && c < d
    ensures c + a <= d
  {
    assert c == a * (c / a) && d == a * (d / a);
    MulGap(a, c / a, d / a);
  }

  lemma {:induction false} MultipleOverflow(v: nat, a: nat, c: nat)
    requires a > 0 && c % a == 0 && v <= c < v + a && (U32_MAX + 1) % a == 0
    ensures c > U32_MAX <==> v + a > U32_MAX + 1
  {
    if c < U32_MAX + 1 { MultipleGap(a, c, U32_MAX + 1); }
  }

  /** The next multiple of a 32-bit power of two overflows exactly above `2^32 - a`. */
  lemma {:induction false} CeilingOverflow(v: nat, a: nat)
    requires PowerOfTwo(a) && a <= U32_MAX && v <= U32_MAX
    ensures Ceiling(v, a) > U32_MAX <==> v + a > U32_MAX + 1
  {
    CeilingIsMultiple(v, a);
    TwoTo32();
    PowerOfTwoDivides(a, U32_MAX + 1);
    MultipleOverflow(v, a, Ceiling(v, a));
  }

  // ------------------------------------------------------------------------------------
  // Correctness of the search
  // ------------------------------------------------------------------------------------

  /** After `k` intervals: no fitting address lies below the cursor, and a cursor inside the
      window is aligned and past those intervals. */
  ghost predicate Progress(s: seq<Interval>, minAddr: nat, st: GapState, k: nat)
    requires st.alignment > 0 && k <= |s|
  {
    !st.found && st.cursor <= st.maxAddr &&
    (forall a :: Fits(s, minAddr, st.maxAddr, st.length, st.alignment, a) ==> st.cursor <= a) &&
    (st.cursor < st.maxAddr ==>
       st.cursor % st.alignment == 0 && minAddr <= st.cursor &&
       forall i :: 0 <= i < k ==> s[i].end <= st.cursor)
  }

  ghost predicate Searching(s: seq<Interval>, minAddr: nat, st: GapState, k: nat) {
    Sorted(s) && U32Intervals(s) && Request(minAddr, st.maxAddr, st.length, st.alignment) &&
    k <= |s| && Progress(s, minAddr, st, k)
  }

  /** A range that ends before interval `k` and starts past all earlier ones fits. */
  lemma {:induction false} FitsBefore(s: seq<Interval>, minAddr: nat, st: GapState, k: nat)
    requires Searching(s, minAddr, st, k) && st.cursor + st.length <= st.maxAddr
    requires k < |s| ==> st.cursor + st.length <= s[k].start
    ensures Fits(s, minAddr, st.maxAddr, st.length, st.alignment, st.cursor)
  {
    forall x | x in s ensures st.cursor + st.length <= x.start || x.end <= st.cursor {
      var i :| 0 <= i < |s| && s[i] == x;
      if i > k { assert s[k].end <= s[i].start; }
    }
  }

  /** Where the range does not fit below interval `k`, every fitting address is past it. */
  lemma {:induction false} FitsBeyond(s: seq<Interval>, minAddr: nat, st: GapState, k: nat, a: nat)
    requires Searching(s, minAddr, st, k) && k < |s|
    requires st.cursor + st.length > s[k].start || st.cursor + st.length > st.maxAddr
    requires Fits(s, minAddr, st.maxAddr, st.length, st.alignment, a)
    ensures s[k].end <= a && AlignUp(s[k].end, st.alignment) <= a
    ensures s[k].end <= AlignUp(s[k].end, st.alignment)
  {
    assert s[k] in s;
    AlignUpIsCeiling(s[k].end, st.alignment);
    CeilingIsLeast(s[k].end, st.alignment, a);
    CeilingIsMultiple(s[k].end, st.alignment);
  }

  /** One interval keeps the progress made, or settles the search; the cursor must not be 0. */
  lemma {:induction false} VisitStep(s: seq<Interval>, minAddr: nat, st: GapState, k: nat)
    requires Searching(s, minAddr, st, k) && k < |s| && st.cursor > 0
    ensures var n := Visit(st, s[k]);
            n.maxAddr == st.maxAddr && n.length == st.length && n.alignment == st.alignment &&
            if n.found then Lowest(s, minAddr, st.maxAddr, st.length, st.alignment, Gap(n.result))
            else Searching(s, minAddr, n, k + 1) && n.cursor > 0
  {
    var n := Visit(st, s[k]);
    assert s[k] in s;
    if s[k].end > st.cursor {
      if n.found {
        FitsBefore(s, minAddr, st, k);
      } else {
        AlignUpIsCeiling(s[k].end, st.alignment);
        CeilingIsMultiple(s[k].end, st.alignment);
        forall a | Fits(s, minAddr, st.maxAddr, st.length, st.alignment, a) ensures n.cursor <= a {
          FitsBeyond(s, minAddr, st, k, a);
        }
        if n.cursor < n.maxAddr { EndsBelow(s, k, n.cursor); }
      }
    }
  }

  lemma {:induction false} EndsBelow(s: seq<Interval>, k: nat, c: nat)
    requires Sorted(s) && k < |s| && s[k].end <= c
    ensures forall i :: 0 <= i <= k ==> s[i].end <= c
  {
    forall i | 0 <= i < k ensures s[i].end <= c { assert s[i].end <= s[k].start; }
  }

  /** From a non-zero cursor the rest of the walk ends with the lowest fitting address. */
  lemma {:induction false} ScanLowest(s: seq<Interval>, minAddr: nat, st: GapState, k: nat)
    requires Searching(s, minAddr, st, k) && st.cursor > 0
    ensures Lowest(s, minAddr, st.maxAddr, st.length, st.alignment, Conclude(Scan(st, s[k..])))
    decreases |s| - k
  {
    if k == |s| {
      if AddFitsLimit(st.cursor, st.length, st.maxAddr) { FitsBefore(s, minAddr, st, k); }
    } else {
      VisitStep(s, minAddr, st, k);
      var n := Visit(st, s[k]);
      assert s[k..][0] == s[k] && s[k..][1..] == s[k + 1..];
      assert Scan(st, s[k..]) == Scan(n, s[k + 1..]);
      if !n.found { ScanLowest(s, minAddr, n, k + 1); }
    }
  }

  /** For every sound request that is not in the trap the search returns the lowest fitting
      address, or reports that there is none. */
  lemma {:induction false} FindGapLowest(s: seq<Interval>, minAddr: nat, maxAddr: nat, length: nat, alignment: nat)
    requires Sorted(s) && U32Intervals(s) && Request(minAddr, maxAddr, length, alignment) && alignment <= U32_MAX
    requires !Trap(s, minAddr, maxAddr, length, alignment)
    ensures Lowest(s, minAddr, maxAddr, length, alignment, FindGap(s, minAddr, maxAddr, length, alignment))
  {
    PowerOfTwoTest(alignment);
    AlignUpIsCeiling(minAddr, alignment);
    CeilingIsMultiple(minAddr, alignment);
    forall a | Fits(s, minAddr, maxAddr, length, alignment, a) ensures AlignUp(minAddr, alignment) <= a {
      CeilingIsLeast(minAddr, alignment, a);
    }
    if Refused(minAddr, maxAddr, length, alignment) {
      forall a ensures !Fits(s, minAddr, maxAddr, length, alignment, a) {
        if Fits(s, minAddr, maxAddr, length, alignment, a) { CeilingIsLeast(minAddr, alignment, a); }
      }
    } else {
      var st := Start(minAddr, maxAddr, length, alignment);
      assert s[0..] == s;
      if st.cursor > 0 { ScanLowest(s, minAddr, st, 0); } else { FromZero(s, maxAddr, length, alignment); }
    }
  }

  /** Outside the trap the first interval moves the cursor off 0 or settles the search. */
  lemma {:induction false} FromZero(s: seq<Interval>, maxAddr: nat, length: nat, alignment: nat)
    requires Sorted(s) && U32Intervals(s) && Request(0, maxAddr, length, alignment) && alignment <= U32_MAX
    requires !Trap(s, 0, maxAddr, length, alignment)
    ensures Lowest(s, 0, maxAddr, length, alignment,
              Conclude(Scan(GapState(0, maxAddr, length, alignment, 0, false), s)))
  {
    var st := GapState(0, maxAddr, length, alignment, 0, false);
    if length > maxAddr {
      ScanTooLong(st, s);
    } else if s == [] || length <= s[0].start {
      FitsBefore(s, 0, st, 0);
    } else {
      var x := s[0];
      assert x in s;
      CeilingOverflow(x.end, alignment);
      AlignUpIsCeiling(x.end, alignment);
      CeilingIsMultiple(x.end, alignment);
      var n := Visit(st, x);
      forall a | Fits(s, 0, maxAddr, length, alignment, a) ensures n.cursor <= a {
        FitsBeyond(s, 0, st, 0, a);
      }
      assert Searching(s, 0, n, 1);
      ScanLowest(s, 0, n, 1);
    }
  }

  /** A range longer than the window is never found. */
  lemma {:induction false} ScanTooLong(st: GapState, s: seq<Interval>)
    requires st.length > st.maxAddr && !st.found
    ensures Conclude(Scan(st, s)) == NoGap
    decreases |s|
  {
    if s != [] { ScanTooLong(Visit(st, s[0]), s[1..]); }
  }

  /** In the trap the cursor is stuck at 0 and the search hands out address 0, which
      overlaps the lowest interval, although nothing fits. */
  lemma {:induction false} FindGapTrapped(s: seq<Interval>, maxAddr: nat, length: nat, alignment: nat)
    requires Sorted(s) && U32Intervals(s) && Request(0, maxAddr, length, alignment) && alignment <= U32_MAX
    requires Trap(s, 0, maxAddr, length, alignment)
    ensures FindGap(s, 0, maxAddr, length, alignment) == Gap(0)
    ensures forall a :: !Fits(s, 0, maxAddr, length, alignment, a)
  {
    PowerOfTwoTest(alignment);
    AlignUpIsCeiling(0, alignment);
    CeilingIsLeast(0, alignment, 0);
    var st := Start(0, maxAddr, length, alignment);
    assert s[0] in s;
    CeilingOverflow(s[0].end, alignment);
    AlignUpIsCeiling(s[0].end, alignment);
    ScanStuck(s, st, 0);
    assert s[0..] == s;
    forall a ensures !Fits(s, 0, maxAddr, length, alignment, a) {
      if Fits(s, 0, maxAddr, length, alignment, a) {
        CeilingIsLeast(s[0].end, alignment, a);
      }
    }
  }

  lemma {:induction false} ScanStuck(s: seq<Interval>, st: GapState, k: nat)
    requires Sorted(s) && U32Intervals(s) && k <= |s| && Request(0, st.maxAddr, st.length, st.alignment)
    requires s != [] && s[0].end + st.alignment > U32_MAX + 1 && st.alignment <= U32_MAX
    requires st.cursor == 0 && !st.found && st.length <= st.maxAddr
    ensures Conclude(Scan(st, s[k..])) == Gap(0)
    decreases |s| - k
  {
    if k < |s| {
      assert s[k] in s && s[0].end <= s[k].end;
      CeilingOverflow(s[k].end, st.alignment);
      AlignUpIsCeiling(s[k].end, st.alignment);
      assert s[k..][0] == s[k] && s[k..][1..] == s[k + 1..];
      var n := Visit(st, s[k]);
      if !n.found { ScanStuck(s, n, k + 1); }
    }
  }

  /** The search is right exactly outside the trap. */
  lemma {:induction false} FindGapExact(s: seq<Interval>, minAddr: nat, maxAddr: nat, length: nat, alignment: nat)
    requires Sorted(s) && U32Intervals(s) && Request(minAddr, maxAddr, length, alignment) && alignment <= U32_MAX
    ensures Lowest(s, minAddr, maxAddr, length, alignment, FindGap(s, minAddr, maxAddr, length, alignment))
            <==> !Trap(s, minAddr, maxAddr, length, alignment)
  {
    if Trap(s, minAddr, maxAddr, length, alignment) {
      FindGapTrapped(s, maxAddr, length, alignment);
    } else {
      FindGapLowest(s, minAddr, maxAddr, length, alignment);
    }
  }

  /** The trap is reachable: 32 bytes on a 2 GiB boundary, with one interval
      `[16, 0xFFFF_FFF0)` in the way, are placed at address 0. */
  lemma {:induction false} TrapWitness()
    ensures var s := [Interval(16, 0xFFFF_FFF0, 0)];
            Sorted(s) && U32Intervals(s) && Request(0, U32_MAX, 32, 0x8000_0000) &&
            FindGap(s, 0, U32_MAX, 32, 0x8000_0000) == Gap(0) &&
            !Fits(s, 0, U32_MAX, 32, 0x8000_0000, 0)
  {
    var s := [Interval(16, 0xFFFF_FFF0, 0)];
    TwoTo32();
    assert PowerOfTwo(0x8000_0000);
    assert s[0] in s;
    FindGapTrapped(s, U32_MAX, 32, 0x8000_0000);
  }
}
