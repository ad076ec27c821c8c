/** The scheduler's task lists: doubly linked lists threaded through the task slots.  A slot's
    link fields are kept in a record of their own, a null pointer is NONE, and every list of the
    scheduler is named. */
module TaskLists {
  const NONE: int := -1

  datatype Name = FreeList | SleepingList | BlockedList | ZombieList | RunQueue(cpu: nat, level: nat)

  datatype Kind = NoKind | FreeKind | RunnableKind | SleepingKind | BlockedKind | ZombieKind

  /** `list_prev`, `list_next` and `list_kind` of one slot. */
  datatype Link = Link(prev: int, next: int, kind: Kind)

  datatype Ends = Ends(head: int, tail: int, count: nat)

  datatype Home = Off | On(name: Name)

  function KindOf(n: Name): Kind {
    match n
    case FreeList => FreeKind
    case SleepingList => SleepingKind
    case BlockedList => BlockedKind
    case ZombieList => ZombieKind
    case RunQueue(_, _) => RunnableKind
  }

  const UNLINKED: Link := Link(NONE, NONE, NoKind)

  ghost predicate Distinct(s: seq<nat>) {
    forall i, j :: 0 <= i < j < |s| ==> s[i] != s[j]
  }

  /** The sequence without `t`. */
  function Without(s: seq<nat>, t: nat): seq<nat> {
    if s == [] then [] else if s[0] == t then s[1..] else [s[0]] + Without(s[1..], t)
  }

  lemma {:induction false} WithoutAt(s: seq<nat>, k: nat)
    requires k < |s| && Distinct(s)
    ensures Without(s, s[k]) == s[..k] + s[k + 1..]
  {
    if k > 0 {
      WithoutAt(s[1..], k - 1);
      assert s[1..][..k - 1] == s[1..k] && s[1..][k..] == s[k + 1..];
      assert s[..k] == [s[0]] + s[1..k];
    }
  }

  lemma {:induction false} WithoutElements(s: seq<nat>, t: nat)
    requires Distinct(s) && t in s
    ensures Distinct(Without(s, t)) && |Without(s, t)| == |s| - 1
    ensures forall x :: x in Without(s, t) <==> x in s && x != t
  {
    var k :| 0 <= k < |s| && s[k] == t;
    WithoutAt(s, k);
    var w := s[..k] + s[k + 1..];
    forall x | x in s && x != t ensures x in w {
      var i :| 0 <= i < |s| && s[i] == x;
      if i < k { assert w[i] == x; } else { assert w[i - 1] == x; }
    }
  }

  // ------------------------------------------------------------------------------------
  // One chain
  // ------------------------------------------------------------------------------------

  ghost predicate ChainAt(links: seq<Link>, s: seq<nat>, i: nat)
    requires i < |s|
  {
    s[i] < |links| &&
    links[s[i]].prev == (if i == 0 then NONE else s[i - 1]) &&
    links[s[i]].next == (if i + 1 == |s| then NONE else s[i + 1])
  }

  /** The links of the slots of `s` spell `s` in both directions. */
  ghost predicate Chain(links: seq<Link>, s: seq<nat>) {
    forall i :: 0 <= i < |s| ==> ChainAt(links, s, i)
  }

  ghost predicate Ended(e: Ends, s: seq<nat>) {
    e.count == |s| && e.head == (if s == [] then NONE else s[0]) && e.tail == (if s == [] then NONE else s[|s| - 1])
  }

  lemma {:induction false} ChainFrame(a: seq<Link>, b: seq<Link>, s: seq<nat>)
    requires Chain(a, s) && |a| == |b|
    requires forall x :: x in s ==> x < |a| && b[x].prev == a[x].prev && b[x].next == a[x].next
    ensures Chain(b, s)
  {
    forall i | 0 <= i < |s| ensures ChainAt(b, s, i) {
      assert ChainAt(a, s, i);
      assert s[i] in s;
    }
  }

  /** The links after `t` has been hung behind the last slot of `s`. */
  function Hung(links: seq<Link>, tail: int, t: nat, kind: Kind): seq<Link>
    requires t < |links| && (tail == NONE || 0 <= tail < |links|)
  {
    var a := links[t := Link(tail, NONE, kind)];
    if tail != NONE then a[tail := a[tail].(next := t)] else a
  }

  function HungEnds(e: Ends, t: nat): Ends {
    Ends(if e.tail == NONE then t else e.head, t, e.count + 1)
  }

  lemma {:induction false} ChainAppend(links: seq<Link>, s: seq<nat>, tail: int, t: nat, kind: Kind)
    requires Chain(links, s) && Distinct(s) && t < |links| && t !in s
    requires tail == if s == [] then NONE else s[|s| - 1]
    ensures tail == NONE || 0 <= tail < |links|
    ensures Chain(Hung(links, tail, t, kind), s + [t])
  {
    if s != [] { assert ChainAt(links, s, |s| - 1); }
    var b := Hung(links, tail, t, kind);
    forall i | 0 <= i < |s| + 1 ensures ChainAt(b, s + [t], i) {
      if i < |s| {
        assert ChainAt(links, s, i) && s[i] in s;
      }
    }
  }

  /** The links after `t` has been cut out of its list. */
  function Cut(links: seq<Link>, t: nat): seq<Link>
    requires t < |links| && (links[t].prev == NONE || 0 <= links[t].prev < |links|)
    requires links[t].next == NONE || 0 <= links[t].next < |links|
  {
    var p, n := links[t].prev, links[t].next;
    var a := if p != NONE then links[p := links[p].(next := n)] else links;
    var b := if n != NONE then a[n := a[n].(prev := p)] else a;
    b[t := UNLINKED]
  }

  lemma {:induction false} ChainNeighbours(links: seq<Link>, s: seq<nat>, k: nat)
    requires Chain(links, s) && k < |s|
    ensures s[k] < |links|
    ensures links[s[k]].prev == (if k == 0 then NONE else s[k - 1]) &&
      links[s[k]].next == (if k + 1 == |s| then NONE else s[k + 1])
    ensures links[s[k]].prev == NONE || 0 <= links[s[k]].prev < |links|
    ensures links[s[k]].next == NONE || 0 <= links[s[k]].next < |links|
  {
    assert ChainAt(links, s, k);
    if k > 0 { assert ChainAt(links, s, k - 1); }
    if k + 1 < |s| { assert ChainAt(links, s, k + 1); }
  }

  lemma {:induction false} ChainCut(links: seq<Link>, s: seq<nat>, k: nat)
    requires Chain(links, s) && Distinct(s) && k < |s|
    ensures s[k] < |links|
    ensures links[s[k]].prev == NONE || 0 <= links[s[k]].prev < |links|
    ensures links[s[k]].next == NONE || 0 <= links[s[k]].next < |links|
    ensures Chain(Cut(links, s[k]), s[..k] + s[k + 1..])
  {
    ChainNeighbours(links, s, k);
    var w, b := s[..k] + s[k + 1..], Cut(links, s[k]);
    forall i | 0 <= i < |w| ensures ChainAt(b, w, i) {
      var j := if i < k then i else i + 1;
      assert w[i] == s[j] && ChainAt(links, s, j);
    }
  }

  // ------------------------------------------------------------------------------------
  // All lists together
  // ------------------------------------------------------------------------------------

  /** The chain spells `s`, and `n` is the home of each of its slots. */
  ghost predicate ListOk(links: seq<Link>, e: Ends, s: seq<nat>, home: seq<Home>, n: Name) {
    Chain(links, s) && Ended(e, s) && Distinct(s) && forall x :: x in s ==> x < |home| && home[x] == On(n)
  }

  ghost predicate Settled(l: Link, queues: map<Name, seq<nat>>, h: Home, x: nat) {
    match h
    case Off => l == UNLINKED
    case On(n) => n in queues && x in queues[n] && l.kind == KindOf(n)
  }

  /** Every list spells its queue, and a slot's home is the one list it is on. */
  ghost predicate Threaded(links: seq<Link>, lists: map<Name, Ends>, queues: map<Name, seq<nat>>, home: seq<Home>) {
    queues.Keys == lists.Keys && |home| == |links| &&
    (forall n :: n in queues ==> ListOk(links, lists[n], queues[n], home, n)) &&
    (forall x :: 0 <= x < |home| ==> Settled(links[x], queues, home[x], x))
  }

  /** A list that shares no slot with the changed ones is as good as before. */
  lemma {:induction false} ListFrame(a: seq<Link>, b: seq<Link>, e: Ends, s: seq<nat>, home: seq<Home>,
                                     home': seq<Home>, n: Name)
    requires ListOk(a, e, s, home, n) && |a| == |b| == |home| == |home'|
    requires forall x :: 0 <= x < |home| && home[x] == On(n) ==> b[x] == a[x] && home'[x] == On(n)
    ensures ListOk(b, e, s, home', n)
  {
    ChainFrame(a, b, s);
  }

  lemma {:induction false} ThreadedPush(links: seq<Link>, lists: map<Name, Ends>, queues: map<Name, seq<nat>>,
                                        home: seq<Home>, n: Name, t: nat)
    requires Threaded(links, lists, queues, home) && n in lists && t < |home| && home[t] == Off
    ensures lists[n].tail == NONE || 0 <= lists[n].tail < |links|
    ensures Threaded(Hung(links, lists[n].tail, t, KindOf(n)),
                     lists[n := HungEnds(lists[n], t)],
                     queues[n := queues[n] + [t]], home[t := On(n)])
  {
    var s, e := queues[n], lists[n];
    assert ListOk(links, e, s, home, n);
    ChainAppend(links, s, e.tail, t, KindOf(n));
    var links' := Hung(links, e.tail, t, KindOf(n));
    var lists' := lists[n := HungEnds(e, t)];
    var queues', home' := queues[n := s + [t]], home[t := On(n)];
    forall m | m in queues' ensures ListOk(links', lists'[m], queues'[m], home', m) {
      if m != n {
        assert ListOk(links, lists[m], queues[m], home, m);
        ListFrame(links, links', lists[m], queues[m], home, home', m);
      }
    }
    forall x | 0 <= x < |home'| ensures Settled(links'[x], queues', home'[x], x) {
      assert Settled(links[x], queues, home[x], x);
    }
  }

  /** The ends of a list from which a slot with link `l` is cut. */
  function CutEnds(e: Ends, l: Link): Ends {
    Ends(if l.prev != NONE then e.head else l.next, if l.next != NONE then e.tail else l.prev,
         if e.count > 0 then e.count - 1 else 0)
  }

  /** What a cut does to the list itself. */
  lemma {:induction false} CutHere(links: seq<Link>, e: Ends, s: seq<nat>, home: seq<Home>, n: Name, t: nat)
    requires ListOk(links, e, s, home, n) && t in s && |links| == |home|
    ensures t < |links| && e.count > 0
    ensures links[t].prev == NONE || 0 <= links[t].prev < |links|
    ensures links[t].next == NONE || 0 <= links[t].next < |links|
    ensures ListOk(Cut(links, t), CutEnds(e, links[t]), Without(s, t), home[t := Off], n)
  {
    var k :| 0 <= k < |s| && s[k] == t;
    ChainNeighbours(links, s, k);
    ChainCut(links, s, k);
    WithoutAt(s, k);
    WithoutElements(s, t);
    CutEnded(e, s, links[t], k);
  }

  /** And what it leaves alone. */
  lemma {:induction false} CutFrame(links: seq<Link>, s: seq<nat>, t: nat)
    requires Chain(links, s) && t in s
    ensures t < |links| && (links[t].prev == NONE || 0 <= links[t].prev < |links|) &&
      (links[t].next == NONE || 0 <= links[t].next < |links|)
    ensures forall x :: 0 <= x < |links| && x !in s ==> Cut(links, t)[x] == links[x]
    ensures forall x :: 0 <= x < |links| && x != t ==> Cut(links, t)[x].kind == links[x].kind
    ensures Cut(links, t)[t] == UNLINKED
  {
    var k :| 0 <= k < |s| && s[k] == t;
    ChainNeighbours(links, s, k);
  }

  lemma {:induction false} CutEnded(e: Ends, s: seq<nat>, l: Link, k: nat)
    requires Ended(e, s) && k < |s|
    requires l.prev == (if k == 0 then NONE else s[k - 1]) && l.next == (if k + 1 == |s| then NONE else s[k + 1])
    ensures Ended(CutEnds(e, l), s[..k] + s[k + 1..])
  {
  }

  lemma {:induction false} ThreadedCut(links: seq<Link>, lists: map<Name, Ends>, queues: map<Name, seq<nat>>,
                                       home: seq<Home>, n: Name, t: nat)
    requires Threaded(links, lists, queues, home) && t < |home| && home[t] == On(n)
    ensures n in lists && t in queues[n]
    ensures links[t].prev == NONE || 0 <= links[t].prev < |links|
    ensures links[t].next == NONE || 0 <= links[t].next < |links|
    ensures Threaded(Cut(links, t), lists[n := CutEnds(lists[n], links[t])], queues[n := Without(queues[n], t)],
                     home[t := Off])
  {
    assert Settled(links[t], queues, home[t], t);
    assert ListOk(links, lists[n], queues[n], home, n);
    CutHere(links, lists[n], queues[n], home, n, t);
    CutFrame(links, queues[n], t);
    WithoutElements(queues[n], t);
    var links', lists' := Cut(links, t), lists[n := CutEnds(lists[n], links[t])];
    var queues', home' := queues[n := Without(queues[n], t)], home[t := Off];
    forall m | m in queues' ensures ListOk(links', lists'[m], queues'[m], home', m) {
      if m != n {
        assert ListOk(links, lists[m], queues[m], home, m);
        ListFrame(links, links', lists[m], queues[m], home, home', m);
      }
    }
    forall x | 0 <= x < |home'| ensures Settled(links'[x], queues', home'[x], x) {
      assert Settled(links[x], queues, home[x], x);
    }
  }

  predicate Tied(k: int) { true }

  class TaskLists {
    var links: seq<Link>
    var lists: map<Name, Ends>
    ghost var queues: map<Name, seq<nat>>
    ghost var home: seq<Home>

    /** The lists are well linked; under a guard, so that callers do not look inside. */
    ghost predicate Valid()
      reads this
    {
      |home| == |links| && queues.Keys == lists.Keys && forall k :: Tied(k) ==> Threaded(links, lists, queues, home)
    }

    /** A slot on a list has that list as its home, and the other way round. */
    lemma {:induction false} HomeIs(n: Name, x: nat)
      requires Valid() && n in queues
      ensures Distinct(queues[n]) && (x in queues[n] <==> x < |home| && home[x] == On(n))
    {
      assert Tied(0);
      assert ListOk(links, lists[n], queues[n], home, n);
      if x < |home| { assert Settled(links[x], queues, home[x], x); }
    }

    lemma {:induction false} HomeOn(x: nat)
      requires Valid() && x < |home| && home[x].On?
      ensures home[x].name in queues && x in queues[home[x].name] && Distinct(queues[home[x].name])
    {
      assert Tied(0);
      assert Settled(links[x], queues, home[x], x);
      HomeIs(home[x].name, x);
    }

    /** Empty lists over `slots` unlinked slots. */
    constructor (slots: nat, names: set<Name>)
      ensures Valid() && |home| == slots && (forall x :: 0 <= x < slots ==> home[x] == Off)
      ensures queues.Keys == names && forall n :: n in names ==> queues[n] == []
    {
      links := seq(slots, _ => UNLINKED);
      lists := map n | n in names :: Ends(NONE, NONE, 0);
      queues := map n | n in names :: [];
      home := seq(slots, _ => Off);
    }

    /** Appends a slot that is on no list. */
    method PushBack(n: Name, t: nat)
      requires Valid() && n in lists && t < |home| && home[t] == Off
      modifies this
      ensures Valid() && lists.Keys == old(lists.Keys)
      ensures queues == old(queues)[n := old(queues)[n] + [t]] && home == old(home)[t := On(n)]
    {
      PushFacts(n, t);
      queues, home := queues[n := queues[n] + [t]], home[t := On(n)];
      Hang(n, t);
    }

    /** Links a slot behind the last one of a list. */
    method Hang(n: Name, t: nat)
      requires n in lists && t < |links| && (lists[n].tail == NONE || 0 <= lists[n].tail < |links|)
      modifies this`links, this`lists
      ensures links == Hung(old(links), old(lists)[n].tail, t, KindOf(n))
      ensures lists == old(lists)[n := HungEnds(old(lists)[n], t)]
    {
      var e := lists[n];
      links := links[t := Link(e.tail, NONE, KindOf(n))];
      if e.tail != NONE {
        links := links[e.tail := links[e.tail].(next := t)];
      } else {
        e := e.(head := t);
      }
      lists := lists[n := e.(tail := t, count := e.count + 1)];
    }

    lemma {:induction false} PushFacts(n: Name, t: nat)
      requires Valid() && n in lists && t < |home| && home[t] == Off
      ensures lists[n].tail == NONE || 0 <= lists[n].tail < |links|
      ensures Threaded(Hung(links, lists[n].tail, t, KindOf(n)), lists[n := HungEnds(lists[n], t)],
                       queues[n := queues[n] + [t]], home[t := On(n)])
    {
      assert Tied(0);
      ThreadedPush(links, lists, queues, home, n, t);
    }

    lemma {:induction false} CutFacts(n: Name, t: nat)
      requires Valid() && t < |home| && home[t] == On(n)
      ensures n in lists && (links[t].prev == NONE || 0 <= links[t].prev < |links|) &&
        (links[t].next == NONE || 0 <= links[t].next < |links|)
      ensures Threaded(Cut(links, t), lists[n := CutEnds(lists[n], links[t])], queues[n := Without(queues[n], t)],
                       home[t := Off])
    {
      assert Tied(0);
      ThreadedCut(links, lists, queues, home, n, t);
    }

    /** Cuts a slot out of the list it is on. */
    method Remove(n: Name, t: nat)
      requires Valid() && t < |home| && home[t] == On(n)
      modifies this
      ensures Valid() && lists.Keys == old(lists.Keys) && n in old(queues)
      ensures queues == old(queues)[n := Without(old(queues)[n], t)] && home == old(home)[t := Off]
    {
      CutFacts(n, t);
      queues, home := queues[n := Without(queues[n], t)], home[t := Off];
      Unhook(n, t);
    }

    /** Takes a slot out of the chain of a list. */
    method Unhook(n: Name, t: nat)
      requires n in lists && t < |links| && (links[t].prev == NONE || 0 <= links[t].prev < |links|)
      requires links[t].next == NONE || 0 <= links[t].next < |links|
      modifies this`links, this`lists
      ensures links == Cut(old(links), t) && lists == old(lists)[n := CutEnds(old(lists)[n], old(links)[t])]
    {
      var l, e := links[t], lists[n];
      if l.prev != NONE {
        links := links[l.prev := links[l.prev].(next := l.next)];
      } else {
        e := e.(head := l.next);
      }
      if l.next != NONE {
        links := links[l.next := links[l.next].(prev := l.prev)];
      } else {
        e := e.(tail := l.prev);
      }
      if e.count > 0 {
        e := e.(count := e.count - 1);
      }
      links, lists := links[t := UNLINKED], lists[n := e];
    }

    /** Takes the first slot off a list. */
    method PopFront(n: Name) returns (t: int)
      requires Valid() && n in lists
      modifies this
      ensures Valid() && lists.Keys == old(lists.Keys) && n in old(queues)
      ensures t == NONE <==> old(queues)[n] == []
      ensures t == NONE ==> queues == old(queues) && home == old(home)
      ensures t != NONE ==> 0 <= t < |home| == |old(home)| && t == old(queues)[n][0] && old(home)[t] == On(n) &&
                            queues == old(queues)[n := old(queues)[n][1..]] && home == old(home)[t := Off]
    {
      assert Tied(0);
      assert ListOk(links, lists[n], queues[n], home, n);
      t := lists[n].head;
      if t == NONE {
        return;
      }
      HomeIs(n, t);
      Remove(n, t);
    }

    /** Walking: the first slot of a list, and the slot behind a given one. */
    method Head(n: Name) returns (t: int)
      requires Valid() && n in lists
      ensures n in queues && t == if queues[n] == [] then NONE else queues[n][0]
    {
      assert Tied(0);
      assert ListOk(links, lists[n], queues[n], home, n);
      t := lists[n].head;
    }

    method Next(t: nat, ghost n: Name, ghost i: nat) returns (r: int)
      requires Valid() && n in queues && i < |queues[n]| && queues[n][i] == t
      ensures r == if i + 1 == |queues[n]| then NONE else queues[n][i + 1]
    {
      assert Tied(0);
      assert ListOk(links, lists[n], queues[n], home, n);
      ChainNeighbours(links, queues[n], i);
      r := links[t].next;
    }

    method Count(n: Name) returns (k: nat)
      requires Valid() && n in lists
      ensures n in queues && k == |queues[n]|
    {
      assert Tied(0);
      assert ListOk(links, lists[n], queues[n], home, n);
      k := lists[n].count;
    }
  }
}
