/** The receiver's schedule: sockets in the order they were last heard from, in a doubly linked
    list, and the sweep that gives every socket silent for too long its timer check. */
module RcvSchedule {
  /** `alive` says whether the socket is still connected. */
  class RNode {
    var ts: int
    var prev: RNode?
    var next: RNode?
    var onList: bool
    var alive: bool
  }

  /** The nodes other than `n`, in order. */
  function Without(s: seq<RNode>, n: RNode): seq<RNode> {
    if s == [] then [] else (if s[0] == n then [] else [s[0]]) + Without(s[1..], n)
  }

  ghost predicate Distinct(s: seq<RNode>) {
    forall i, j :: 0 <= i < j < |s| ==> s[i] != s[j]
  }

  lemma {:induction false} WithoutAt(s: seq<RNode>, k: nat)
    requires Distinct(s) && k < |s|
    ensures Without(s, s[k]) == s[..k] + s[k + 1..]
  {
    if k == 0 {
      WithoutAbsent(s[1..], s[0]);
    } else {
      var t := s[1..];
      assert Distinct(t) && t[k - 1] == s[k] && s[0] != s[k];
      WithoutAt(t, k - 1);
      assert Without(s, s[k]) == [s[0]] + (t[..k - 1] + t[k..]);
      hide Without, Distinct;
      assert [s[0]] + (t[..k - 1] + t[k..]) == ([s[0]] + t[..k - 1]) + t[k..];
      assert s[..k] == [s[0]] + t[..k - 1] && t[k..] == s[k + 1..];
    }
  }

  lemma {:induction false} WithoutAbsent(s: seq<RNode>, n: RNode)
    requires n !in s
    ensures Without(s, n) == s
  {
    if s != [] {
      WithoutAbsent(s[1..], n);
    }
  }

  lemma LastStays(s: seq<RNode>, n: RNode)
    requires Distinct(s) && |s| > 0 && s[|s| - 1] == n
    ensures s == Without(s, n) + [n]
  {
    WithoutAt(s, |s| - 1);
  }

  /** Apart from `n`: least recently heard from first, and nobody from the future. */
  ghost predicate InOrder(s: seq<RNode>, n: RNode?, clock: int)
    reads s`ts
  {
    && (forall i, j :: 0 <= i < j < |s| && s[i] != n && s[j] != n ==> s[i].ts <= s[j].ts)
    && (forall i :: 0 <= i < |s| && s[i] != n ==> s[i].ts <= clock)
  }

  /** What is left when one node goes. */
  lemma StillInOrder(s: seq<RNode>, k: nat, clock: int)
    requires Distinct(s) && k < |s| && InOrder(s, s[k], clock)
    ensures InOrder(s[..k] + s[k + 1..], null, clock)
  {
    var t := s[..k] + s[k + 1..];
    forall i | 0 <= i < |t| ensures t[i].ts <= clock {
      var i' := if i < k then i else i + 1;
      assert t[i] == s[i'] && s[i'] != s[k];
    }
    forall i, j | 0 <= i < j < |t| ensures t[i].ts <= t[j].ts {
      var i', j' := if i < k then i else i + 1, if j < k then j else j + 1;
      assert t[i] == s[i'] && s[i'] != s[k] && t[j] == s[j'] && s[j'] != s[k];
    }
  }

  lemma OneMore(s: seq<RNode>, n: RNode, clock: int)
    requires InOrder(s, null, clock) && n.ts == clock
    ensures InOrder(s + [n], null, clock)
  {
  }

  class RcvUList {
    var uList: RNode?
    var last: RNode?
    var clock: int
    ghost var order: seq<RNode>

    ghost predicate Valid()
      reads `uList, `last, `order, order`prev, order`next
    {
      && Distinct(order)
      && uList == (if order == [] then null else order[0])
      && last == (if order == [] then null else order[|order| - 1])
      && (forall i {:trigger order[i].prev} :: 0 <= i < |order| ==>
            order[i].prev == if i == 0 then null else order[i - 1])
      && (forall i {:trigger order[i].next} :: 0 <= i < |order| ==>
            order[i].next == if i + 1 < |order| then order[i + 1] else null)
    }

    ghost predicate Sorted()
      reads this, order`ts
    {
      InOrder(order, null, clock)
    }

    constructor (clock: int)
      ensures Valid() && Sorted() && order == [] && this.clock == clock
    {
      uList, last, this.clock, order := null, null, clock, [];
    }

    /** The clock never goes back. */
    method Rdtsc() returns (t: int)
      modifies `clock
      ensures t == clock >= old(clock)
    {
      var d :| d >= 0;
      clock := clock + d;
      t := clock;
    }

    /** Takes `n` out of the chain. */
    method Unlink(n: RNode, ghost k: nat)
      requires Valid() && k < |order| && order[k] == n
      modifies `uList, `last, `order, order`prev, order`next
      ensures Valid() && order == old(order[..k] + order[k + 1..])
    {
      if n.prev == null {
        uList := n.next;
        if uList == null {
          last := null;
        } else {
          uList.prev := null;
        }
      } else {
        n.prev.next := n.next;
        if n.next == null {
          last := n.prev;
        } else {
          n.next.prev := n.prev;
        }
      }
      order := order[..k] + order[k + 1..];
    }

    /** Unlinking a node leaves the rest in order. */
    method UnlinkNode(n: RNode)
      requires Valid() && n in order && InOrder(order, n, clock)
      modifies `uList, `last, `order, order`prev, order`next
      ensures Valid() && Sorted() && order == Without(old(order), n) && n !in order
      ensures forall i :: 0 <= i < |order| ==> order[i] in old(order)
    {
      ghost var k :| 0 <= k < |order| && order[k] == n;
      WithoutAt(order, k);
      StillInOrder(order, k, clock);
      assert n !in order[..k] + order[k + 1..];
      hide Without, Distinct, Valid;
      Unlink(n, k);
    }

    /** Puts `n` at the end of the chain. */
    method Link(n: RNode)
      requires Valid() && n !in order
      modifies `uList, `last, `order, order`next, n`prev, n`next
      ensures Valid() && order == old(order) + [n]
    {
      if uList == null {
        n.prev, n.next := null, null;
        last, uList := n, n;
      } else {
        n.prev := last;
        n.next := null;
        last.next := n;
        last := n;
      }
      order := order + [n];
    }

    /** Linking a node last, heard from just now, keeps the order. */
    method LinkNode(n: RNode)
      requires Valid() && Sorted() && n !in order && n.ts == clock
      modifies `uList, `last, `order, order`next, n`prev, n`next
      ensures Valid() && Sorted() && order == old(order) + [n]
    {
      hide Valid;
      OneMore(order, n, clock);
      Link(n);
    }

    method Clear(n: RNode)
      requires Valid() && Sorted() && n !in order
      modifies n`prev, n`next
      ensures Valid() && Sorted()
    {
      n.next, n.prev := null, null;
    }

    /** A socket joins; it has just been heard from. */
    method Insert(n: RNode)
      requires Valid() && Sorted() && n !in order
      modifies `clock, `uList, `last, `order, order`next, n`ts, n`prev, n`next
      ensures Valid() && Sorted() && order == old(order) + [n]
      ensures clock >= old(clock) && n.ts == clock
    {
      hide Valid;
      n.ts := Rdtsc();
      LinkNode(n);
    }

    /** A socket leaves, if it is on the list. */
    method Remove(n: RNode)
      requires Valid() && Sorted() && (n.onList ==> n in order)
      modifies `uList, `last, `order, order`prev, order`next, n`prev, n`next
      ensures Valid() && Sorted() && order == if n.onList then Without(old(order), n) else old(order)
    {
      if !n.onList {
        return;
      }
      hide Without, Valid;
      UnlinkNode(n);
      Clear(n);
    }

    lemma LastIsLast(n: RNode)
      requires Valid() && n in order && n.next == null
      ensures order == Without(order, n) + [n]
      ensures InOrder(order, n, clock) && n.ts == clock ==> Sorted()
    {
      var k :| 0 <= k < |order| && order[k] == n;
      LastStays(order, n);
    }

    method Touch(n: RNode)
      requires Sorted()
      modifies `clock, n`ts
      ensures InOrder(order, n, clock) && n.ts == clock >= old(clock)
    {
      n.ts := Rdtsc();
    }

    /** A socket has been heard from: to the end with it. */
    method Update(n: RNode)
      requires Valid() && Sorted() && (n.onList ==> n in order)
      modifies `clock, `uList, `last, `order, order`prev, order`next, n`ts, n`prev, n`next
      ensures Valid() && Sorted() && clock >= old(clock)
      ensures n.onList ==> order == Without(old(order), n) + [n] && n.ts == clock
      ensures !n.onList ==> order == old(order) && n.ts == old(n.ts)
    {
      if !n.onList {
        return;
      }
      hide Without, Valid, InOrder;
      Touch(n);
      if n.next == null {
        LastIsLast(n);
        return;
      }
      UnlinkNode(n);
      LinkNode(n);
    }

    lemma Head()
      requires Valid()
      ensures uList == if order == [] then null else order[0]
      ensures forall i :: 0 < i < |order| ==> order[i] != order[0]
    {
    }

    /** One turn of the sweep: the first socket is checked and moved to the end, or dropped. */
    method CheckFirst(n: RNode)
      requires Valid() && Sorted() && |order| > 0 && order[0] == n && (forall i :: 0 <= i < |order| ==> order[i].onList)
      modifies `clock, `uList, `last, `order, order`prev, order`next, n`ts, n`onList, n`prev, n`next
      ensures Valid() && Sorted() && clock >= old(clock)
      ensures order == old(order)[1..] + (if n.alive then [n] else []) && n.onList == n.alive
      ensures n.alive ==> n.ts == clock
      ensures forall i :: 0 <= i < |order| ==> order[i] in old(order) && order[i].onList
    {
      Head();
      FirstLeft();
      hide Valid, InOrder, Without;
      if n.alive {
        Update(n);
      } else {
        Remove(n);
        DropFrom(n);
      }
    }

    /** The turn among the others, `all` of which were on the list: nobody else's timestamp
        changes. */
    method Turn(n: RNode, ghost rest: seq<RNode>, ghost kept: seq<RNode>, ghost all: set<RNode>)
      requires Valid() && Sorted() && order == [n] + rest + kept && AllOn(order) && Within(order, all)
      modifies `clock, `uList, `last, `order, all`prev, all`next, all`ts, all`onList
      ensures Valid() && Sorted() && clock >= old(clock) && AllOn(order) && Within(order, all)
      ensures order == rest + (kept + (if n.alive then [n] else [])) && n.onList == n.alive
      ensures n.alive ==> n.ts == clock
      ensures Stamps(rest) == old(Stamps(rest)) && Stamps(kept) == old(Stamps(kept))
    {
      Head();
      forall i | 0 <= i < |rest| ensures rest[i] != n {
        assert order[i + 1] == rest[i];
      }
      forall i | 0 <= i < |kept| ensures kept[i] != n {
        assert order[i + 1 + |rest|] == kept[i];
      }
      assert order[1..] == rest + kept;
      hide Valid, InOrder;
      CheckFirst(n);
    }

    lemma FirstLeft()
      requires Valid() && |order| > 0
      ensures Without(order, order[0]) == order[1..]
    {
      WithoutAt(order, 0);
      assert order[..0] + order[1..] == order[1..];
    }

    method DropFrom(n: RNode)
      modifies n`onList
      ensures !n.onList
    {
      n.onList := false;
    }

    /** Midway through a sweep: `handled` are done, `rest` are still to be looked at, `kept`
        have been moved behind them; `stamps` are the timestamps at the outset. */
    ghost predicate Sweeping(was: seq<RNode>, stamps: seq<int>, all: set<RNode>, t: int,
                             handled: seq<RNode>, done: seq<int>, rest: seq<RNode>, kept: seq<RNode>)
      reads this, order, handled, rest, kept
    {
      && was == handled + rest && order == rest + kept && kept == Alive(handled)
      && stamps == done + Stamps(rest) && |done| == |handled|
      && Below(done, t) && NotBelow(Stamps(kept), t)
      && Valid() && Sorted() && t <= clock
      && AllOn(order) && Within(order, all)
    }

    method SweepOne(n: RNode, ghost was: seq<RNode>, ghost stamps: seq<int>, ghost all: set<RNode>, ghost t: int,
                    ghost handled: seq<RNode>, ghost done: seq<int>, ghost rest: seq<RNode>, ghost kept: seq<RNode>)
      requires Sweeping(was, stamps, all, t, handled, done, rest, kept) && |order| > 0 && order[0] == n && n.ts < t
      modifies `clock, `uList, `last, `order, all`prev, all`next, all`ts, all`onList
      ensures |rest| > 0 && clock >= old(clock)
      ensures Sweeping(was, stamps, all, t, handled + [n], done + [old(n.ts)], rest[1..],
                       kept + if n.alive then [n] else [])
    {
      hide Valid, InOrder, Alive, Stamps, AllOn, Within, Below, NotBelow;
      FirstIsDue(rest, kept, t);
      ghost var more := rest[1..];
      OneDone(done, n.ts, t);
      AliveMore(handled, n);
      MoveOne(done, n.ts, Stamps(more));
      MoveOne(handled, n, more);
      Turn(n, more, kept, all);
      OneKept(kept, n, t);
    }

    lemma SweepStarts(t: int)
      requires Valid() && Sorted() && t <= clock && forall i :: 0 <= i < |order| ==> order[i].onList
      ensures Sweeping(order, Stamps(order), (set m | m in order), t, [], [], order, [])
    {
      hide Valid, InOrder;
      Beginning(order, t);
    }

    lemma SweepEnds(was: seq<RNode>, stamps: seq<int>, all: set<RNode>, t: int,
                    handled: seq<RNode>, done: seq<int>, rest: seq<RNode>, kept: seq<RNode>)
      requires Sweeping(was, stamps, all, t, handled, done, rest, kept) && (uList == null || uList.ts >= t)
      ensures Valid() && Sorted() && |handled| <= |was| && handled == was[..|handled|]
      ensures order == was[|handled|..] + Alive(handled)
      ensures forall i :: 0 <= i < |stamps| ==> (stamps[i] < t <==> i < |handled|)
      ensures forall i :: 0 <= i < |order| ==> order[i].ts >= t && order[i].onList
    {
      Head();
      OldestFirst(t);
      hide Valid, InOrder, Alive, Stamps;
      Finished(rest, kept, done, stamps, t);
      assert was[|handled|..] == rest;
    }

    lemma SweepHead(was: seq<RNode>, stamps: seq<int>, all: set<RNode>, t: int,
                    handled: seq<RNode>, done: seq<int>, rest: seq<RNode>, kept: seq<RNode>)
      requires Sweeping(was, stamps, all, t, handled, done, rest, kept)
      ensures uList == if order == [] then null else order[0]
    {
    }

    /** The timer check: exactly the sockets not heard from since `ctime` are checked and moved
        to the end, or dropped if no longer connected. */
    method Sweep(ctime: int) returns (ghost handled: seq<RNode>)
      requires Valid() && Sorted() && ctime <= clock && (forall i :: 0 <= i < |order| ==> order[i].onList)
      modifies this, order
      ensures Valid() && Sorted() && clock >= old(clock)
      ensures |handled| <= |old(order)| && handled == old(order)[..|handled|]
      ensures forall i :: 0 <= i < |old(order)| ==> (old(order[i].ts) < ctime <==> i < |handled|)
      ensures order == old(order)[|handled|..] + Alive(handled)
      ensures forall i :: 0 <= i < |order| ==> order[i].ts >= ctime && order[i].onList
    {
      hide Sweeping, Valid, InOrder, Alive, Stamps;
      ghost var was, all, stamps := order, (set m | m in order), Stamps(order);
      SweepStarts(ctime);
      ghost var done, rest, kept;
      handled, done, rest, kept := SweepDue(ctime, was, stamps, all);
      SweepEnds(was, stamps, all, ctime, handled, done, rest, kept);
    }

    method SweepDue(ctime: int, ghost was: seq<RNode>, ghost stamps: seq<int>, ghost all: set<RNode>)
      returns (ghost handled: seq<RNode>, ghost done: seq<int>, ghost rest: seq<RNode>, ghost kept: seq<RNode>)
      requires Sweeping(was, stamps, all, ctime, [], [], was, [])
      modifies `clock, `uList, `last, `order, all`prev, all`next, all`ts, all`onList
      ensures Sweeping(was, stamps, all, ctime, handled, done, rest, kept) && clock >= old(clock)
      ensures uList == null || uList.ts >= ctime
    {
      hide Sweeping, Valid, InOrder, Alive, Stamps;
      handled, done, rest, kept := [], [], was, [];
      var ul := uList;
      while ul != null && ul.ts < ctime
        invariant Sweeping(was, stamps, all, ctime, handled, done, rest, kept)
        invariant ul == uList && old(clock) <= clock
        decreases |rest|
      {
        var n: RNode := ul;
        SweepHead(was, stamps, all, ctime, handled, done, rest, kept);
        ghost var ts := n.ts;
        SweepOne(n, was, stamps, all, ctime, handled, done, rest, kept);
        handled, done, rest, kept := handled + [n], done + [ts], rest[1..], kept + if n.alive then [n] else [];
        ul := uList;
      }
    }

    lemma OldestFirst(t: int)
      requires Sorted()
      ensures |order| > 0 && order[0].ts >= t ==> forall i :: 0 <= i < |order| ==> order[i].ts >= t
    {
    }
  }

  ghost function Stamps(s: seq<RNode>): (r: seq<int>)
    reads s`ts
    ensures |r| == |s| && forall i :: 0 <= i < |s| ==> r[i] == s[i].ts
  {
    if s == [] then [] else Stamps(s[..|s| - 1]) + [s[|s| - 1].ts]
  }

  ghost function Alive(s: seq<RNode>): seq<RNode>
    reads s`alive
  {
    if s == [] then [] else Alive(s[..|s| - 1]) + if s[|s| - 1].alive then [s[|s| - 1]] else []
  }

  ghost predicate AllOn(s: seq<RNode>)
    reads s`onList
  {
    forall i :: 0 <= i < |s| ==> s[i].onList
  }

  ghost predicate Within(s: seq<RNode>, all: set<RNode>) {
    forall i :: 0 <= i < |s| ==> s[i] in all
  }

  predicate Below(s: seq<int>, t: int) {
    forall i :: 0 <= i < |s| ==> s[i] < t
  }

  predicate NotBelow(s: seq<int>, t: int) {
    forall i :: 0 <= i < |s| ==> s[i] >= t
  }

  lemma Beginning(s: seq<RNode>, t: int)
    ensures Alive([]) == [] && Stamps([]) == [] && Below([], t) && NotBelow([], t)
    ensures Within(s, set m | m in s) && [] + Stamps(s) == Stamps(s) && [] + s == s == s + []
    ensures (forall i :: 0 <= i < |s| ==> s[i].onList) ==> AllOn(s)
  {
  }

  lemma FirstIsDue(rest: seq<RNode>, kept: seq<RNode>, t: int)
    requires |rest + kept| > 0 && (rest + kept)[0].ts < t && NotBelow(Stamps(kept), t)
    ensures |rest| > 0 && (rest + kept)[0] == rest[0] && rest + kept == [rest[0]] + rest[1..] + kept
    ensures rest == [rest[0]] + rest[1..]
    ensures Stamps(rest) == [rest[0].ts] + Stamps(rest[1..])
  {
    hide Stamps, NotBelow;
    if rest == [] {
      FirstNotBelow(kept, t);
    }
    assert rest == [rest[0]] + rest[1..];
  }

  lemma FirstNotBelow(s: seq<RNode>, t: int)
    requires |s| > 0 && NotBelow(Stamps(s), t)
    ensures s[0].ts >= t
  {
    assert Stamps(s)[0] == s[0].ts;
  }

  lemma MoveOne<T>(a: seq<T>, x: T, b: seq<T>)
    ensures a + ([x] + b) == (a + [x]) + b
  {
  }

  lemma OneDone(done: seq<int>, ts: int, t: int)
    requires Below(done, t) && ts < t
    ensures Below(done + [ts], t)
  {
  }

  lemma OneKept(kept: seq<RNode>, n: RNode, t: int)
    requires NotBelow(Stamps(kept), t) && (n.alive ==> n.ts >= t)
    ensures NotBelow(Stamps(kept + if n.alive then [n] else []), t)
  {
    assert forall i :: 0 <= i < |kept| ==> Stamps(kept)[i] == kept[i].ts;
  }

  lemma Finished(rest: seq<RNode>, kept: seq<RNode>, done: seq<int>, stamps: seq<int>, t: int)
    requires stamps == done + Stamps(rest) && Below(done, t) && AllOn(rest + kept)
    requires forall i :: 0 <= i < |rest + kept| ==> (rest + kept)[i].ts >= t
    ensures forall i :: 0 <= i < |stamps| ==> (stamps[i] < t <==> i < |done|)
    ensures forall i :: 0 <= i < |rest + kept| ==> (rest + kept)[i].onList
  {
    forall i | 0 <= i < |rest| ensures Stamps(rest)[i] >= t {
      assert (rest + kept)[i] == rest[i];
    }
  }

  lemma AliveMore(s: seq<RNode>, n: RNode)
    ensures Alive(s + [n]) == Alive(s) + if n.alive then [n] else []
  {
    assert (s + [n])[..|s|] == s;
  }
}
