/** The sender's schedule: a binary heap of sockets by next sending time, in an array, with the
    position of every socket kept in the socket's own node. */
module SendSchedule {
  datatype Entry<T> = Entry(node: T, ts: int)

  function Parent(i: nat): nat
    requires i > 0
  {
    (i - 1) / 2
  }

  /** Every entry is due no earlier than its parent. */
  predicate Ordered<T>(s: seq<Entry<T>>) {
    forall i :: 0 < i < |s| ==> s[Parent(i)].ts <= s[i].ts
  }

  function Swapped<T>(s: seq<Entry<T>>, i: nat, j: nat): (r: seq<Entry<T>>)
    requires i < |s| && j < |s|
    ensures |r| == |s|
  {
    s[i := s[j]][j := s[i]]
  }

  function SiftUp<T>(s: seq<Entry<T>>, q: nat): (r: seq<Entry<T>>)
    requires q < |s|
    ensures |r| == |s|
    decreases q
  {
    if q > 0 && s[Parent(q)].ts > s[q].ts then SiftUp(Swapped(s, q, Parent(q)), Parent(q)) else s
  }

  /** The child of `q` that is due first. */
  function FirstChild<T>(s: seq<Entry<T>>, q: nat): (c: nat)
    requires 2 * q + 1 < |s|
    ensures q < c < |s| && Parent(c) == q
  {
    if 2 * q + 2 < |s| && s[2 * q + 1].ts > s[2 * q + 2].ts then 2 * q + 2 else 2 * q + 1
  }

  function SiftDown<T>(s: seq<Entry<T>>, q: nat): (r: seq<Entry<T>>)
    ensures |r| == |s|
    decreases |s| - q
  {
    if 2 * q + 1 < |s| && s[q].ts > s[FirstChild(s, q)].ts
    then SiftDown(Swapped(s, q, FirstChild(s, q)), FirstChild(s, q)) else s
  }

  function Inserted<T>(s: seq<Entry<T>>, e: Entry<T>): seq<Entry<T>> {
    SiftUp(s + [e], |s|)
  }

  /** Removal: the last entry takes the place and sinks; it never rises. */
  function RemovedAt<T>(s: seq<Entry<T>>, k: nat): seq<Entry<T>>
    requires k < |s|
  {
    SiftDown(s[k := s[|s| - 1]][..|s| - 1], k)
  }

  // ---------------------------------------------------------------- the same entries

  lemma SwapKeeps<T>(s: seq<Entry<T>>, i: nat, j: nat)
    requires i < |s| && j < |s|
    ensures multiset(Swapped(s, i, j)) == multiset(s)
  {
  }

  lemma {:induction false} SiftUpKeeps<T>(s: seq<Entry<T>>, q: nat)
    requires q < |s|
    ensures multiset(SiftUp(s, q)) == multiset(s)
    decreases q
  {
    hide Swapped;
    if q > 0 && s[Parent(q)].ts > s[q].ts {
      SwapKeeps(s, q, Parent(q));
      SiftUpKeeps(Swapped(s, q, Parent(q)), Parent(q));
    }
  }

  lemma SiftDownStep<T>(s: seq<Entry<T>>, q: nat)
    ensures SiftDown(s, q) ==
      if 2 * q + 1 < |s| && s[q].ts > s[FirstChild(s, q)].ts
      then SiftDown(Swapped(s, q, FirstChild(s, q)), FirstChild(s, q)) else s
  {
  }

  lemma {:induction false} SiftDownKeeps<T>(s: seq<Entry<T>>, q: nat)
    ensures multiset(SiftDown(s, q)) == multiset(s)
    decreases |s| - q
  {
    hide Swapped;
    if 2 * q + 1 < |s| && s[q].ts > s[FirstChild(s, q)].ts {
      var c := FirstChild(s, q);
      SwapKeeps(s, q, c);
      SiftDownKeeps(Swapped(s, q, c), c);
    }
  }

  /** An insertion adds exactly one entry. */
  lemma InsertedKeeps<T>(s: seq<Entry<T>>, e: Entry<T>)
    ensures multiset(Inserted(s, e)) == multiset(s) + multiset{e}
  {
    SiftUpKeeps(s + [e], |s|);
  }

  /** A removal takes exactly one entry, the one named. */
  lemma RemovedKeeps<T>(s: seq<Entry<T>>, k: nat)
    requires k < |s|
    ensures multiset(RemovedAt(s, k)) == multiset(s) - multiset{s[k]}
  {
    hide SiftDown;
    var t := s[k := s[|s| - 1]];
    SiftDownKeeps(t[..|s| - 1], k);
    WithoutLast(t);
    Replaced(s, k, s[|s| - 1]);
  }

  lemma Replaced<T>(s: seq<Entry<T>>, k: nat, x: Entry<T>)
    requires k < |s|
    ensures multiset(s[k := x]) == multiset(s) - multiset{s[k]} + multiset{x}
  {
  }

  lemma WithoutLast<T>(t: seq<Entry<T>>)
    requires |t| > 0
    ensures multiset(t[..|t| - 1]) == multiset(t) - multiset{t[|t| - 1]}
  {
    assert t == t[..|t| - 1] + [t[|t| - 1]];
  }

  // ---------------------------------------------------------------- the order

  /** In order but for `q`, which may be due before its parent. */
  predicate OrderedButUp<T>(s: seq<Entry<T>>, q: nat)
    requires q < |s|
  {
    && (forall i :: 0 < i < |s| && i != q ==> s[Parent(i)].ts <= s[i].ts)
    && (q > 0 ==> forall i :: 0 < i < |s| && Parent(i) == q ==> s[Parent(q)].ts <= s[i].ts)
  }

  lemma RiseStep<T>(s: seq<Entry<T>>, q: nat)
    requires 0 < q < |s| && OrderedButUp(s, q) && s[Parent(q)].ts > s[q].ts
    ensures OrderedButUp(Swapped(s, q, Parent(q)), Parent(q))
  {
    var p := Parent(q);
    var t := Swapped(s, q, p);
    forall i | 0 < i < |t| && i != p ensures t[Parent(i)].ts <= t[i].ts {
      assert Parent(i) == q ==> s[Parent(q)].ts <= s[i].ts;
    }
    forall i | 0 < i < |t| && Parent(i) == p && p > 0 ensures t[Parent(p)].ts <= t[i].ts {
      assert s[Parent(p)].ts <= s[p].ts;
    }
  }

  lemma {:induction false} SiftUpOrders<T>(s: seq<Entry<T>>, q: nat)
    requires q < |s| && OrderedButUp(s, q)
    ensures Ordered(SiftUp(s, q))
    decreases q
  {
    if q > 0 && s[Parent(q)].ts > s[q].ts {
      RiseStep(s, q);
      hide OrderedButUp, Ordered, Swapped;
      SiftUpOrders(Swapped(s, q, Parent(q)), Parent(q));
    }
  }

  /** Insertion keeps the order. */
  lemma InsertedOrders<T>(s: seq<Entry<T>>, e: Entry<T>)
    requires Ordered(s)
    ensures Ordered(Inserted(s, e))
  {
    SiftUpOrders(s + [e], |s|);
  }

  /** In order but for `q`, which may be due after its children. */
  predicate OrderedButDown<T>(s: seq<Entry<T>>, q: nat) {
    && (forall i :: 0 < i < |s| && Parent(i) != q && i != q ==> s[Parent(i)].ts <= s[i].ts)
    && (0 < q < |s| ==> forall i :: 0 < i < |s| && Parent(i) == q ==> s[Parent(q)].ts <= s[i].ts)
  }

  lemma SinkStep<T>(s: seq<Entry<T>>, q: nat)
    requires OrderedButDown(s, q) && 2 * q + 1 < |s| && s[q].ts > s[FirstChild(s, q)].ts
    ensures var c := FirstChild(s, q); OrderedButDown(Swapped(s, q, c), c)
    ensures q > 0 ==> s[Parent(q)].ts <= s[q].ts
  {
    var c := FirstChild(s, q);
    var t := Swapped(s, q, c);
    forall i | 0 < i < |t| && Parent(i) != c && i != c ensures t[Parent(i)].ts <= t[i].ts {
      SinkStepAt(s, q, i);
    }
    forall i | 0 < i < |t| && Parent(i) == c ensures t[Parent(c)].ts <= t[i].ts {
    }
  }

  lemma SinkStepAt<T>(s: seq<Entry<T>>, q: nat, i: nat)
    requires OrderedButDown(s, q) && 2 * q + 1 < |s| && s[q].ts > s[FirstChild(s, q)].ts && 0 < i < |s|
    requires Parent(i) != FirstChild(s, q) && i != FirstChild(s, q)
    ensures var t := Swapped(s, q, FirstChild(s, q)); t[Parent(i)].ts <= t[i].ts
  {
    var c := FirstChild(s, q);
    var t := Swapped(s, q, c);
    if Parent(i) == q {
      assert i == 2 * q + 1 || i == 2 * q + 2;
      assert t[q] == s[c] && t[i] == s[i];
    } else if i == q {
      assert t[q] == s[c] && t[Parent(q)] == s[Parent(q)];
    } else {
      assert t[i] == s[i] && t[Parent(i)] == s[Parent(i)];
    }
  }

  /** Sinking restores the order exactly when the entry is not due before its parent. */
  lemma {:induction false} SiftDownOrders<T>(s: seq<Entry<T>>, q: nat)
    requires OrderedButDown(s, q)
    ensures Ordered(SiftDown(s, q)) <==> (0 < q < |s| ==> s[Parent(q)].ts <= s[q].ts)
    decreases |s| - q
  {
    if 2 * q + 1 < |s| && s[q].ts > s[FirstChild(s, q)].ts {
      hide Ordered;
      var c := FirstChild(s, q);
      SinkStep(s, q);
      hide OrderedButDown;
      SiftDownOrders(Swapped(s, q, c), c);
    } else {
      ChildrenAfter(s, q);
    }
  }

  lemma ChildrenAfter<T>(s: seq<Entry<T>>, q: nat)
    requires OrderedButDown(s, q) && !(2 * q + 1 < |s| && s[q].ts > s[FirstChild(s, q)].ts)
    ensures Ordered(s) <==> (0 < q < |s| ==> s[Parent(q)].ts <= s[q].ts)
  {
    if 0 < q < |s| && s[Parent(q)].ts > s[q].ts {
      assert !Ordered(s);
    } else {
      forall i | 0 < i < |s| ensures s[Parent(i)].ts <= s[i].ts {
        if Parent(i) == q {
          assert i == 2 * q + 1 || i == 2 * q + 2;
        }
      }
    }
  }

  /** Removal keeps the order exactly when it removes the root or the last entry, or the last
      entry, which takes the vacated place, is not due before the parent of that place. */
  lemma RemovedOrders<T>(s: seq<Entry<T>>, k: nat)
    requires Ordered(s) && k < |s|
    ensures Ordered(RemovedAt(s, k)) <==> (0 < k < |s| - 1 ==> s[Parent(k)].ts <= s[|s| - 1].ts)
  {
    var t := s[k := s[|s| - 1]][..|s| - 1];
    SiftDownOrders(t, k);
  }

  /** Taking the root keeps the order. */
  lemma RootRemovalOrders<T>(s: seq<Entry<T>>)
    requires Ordered(s) && |s| > 0
    ensures Ordered(RemovedAt(s, 0))
  {
    RemovedOrders(s, 0);
  }

  /** An interior removal that breaks the order. */
  lemma InteriorRemovalBreaksOrder()
    ensures exists s: seq<Entry<int>>, k: nat :: k < |s| && Ordered(s) && !Ordered(RemovedAt(s, k))
  {
    var s := [Entry(0, 1), Entry(1, 10), Entry(2, 2), Entry(3, 11), Entry(4, 12), Entry(5, 3)];
    assert Ordered(s);
    RemovedOrders(s, 3);
    assert !Ordered(RemovedAt(s, 3));
  }

  /** The root of an ordered heap is due first. */
  lemma {:induction false} RootIsFirst<T>(s: seq<Entry<T>>, i: nat)
    requires Ordered(s) && i < |s|
    ensures s[0].ts <= s[i].ts
  {
    if i > 0 {
      RootIsFirst(s, Parent(i));
    }
  }

  // ---------------------------------------------------------------- the schedule

  /** A socket's place in the schedule: when it is next due, and its slot, or -1. */
  class Node {
    var ts: int
    var heapLoc: int

    constructor ()
      ensures ts == 0 && heapLoc == -1
    {
      ts, heapLoc := 0, -1;
    }
  }

  /** `nodes` are the nodes of all the sockets, scheduled or not. */
  class SndUList {
    var heap: array<Node?>
    var lastEntry: int
    ghost var nodes: set<Node>

    /** The slots in use hold distinct nodes. */
    ghost predicate Slots()
      reads this, heap
    {
      && -1 <= lastEntry < heap.Length
      && (forall i :: 0 <= i <= lastEntry ==> heap[i] in nodes)
      && (forall i, j :: 0 <= i < j <= lastEntry ==> heap[i] != heap[j])
    }

    /** Every node but `n` knows its slot, or that it has none. */
    ghost predicate Tracked(n: Node?)
      requires Slots()
      reads this, heap, nodes
    {
      && (forall i :: 0 <= i <= lastEntry && heap[i] != n ==> heap[i].heapLoc == i)
      && (forall m :: m in nodes && m != n && m.heapLoc != -1 ==> 0 <= m.heapLoc <= lastEntry && heap[m.heapLoc] == m)
    }

    ghost predicate Valid()
      reads this, heap, nodes
    {
      Slots() && Tracked(null)
    }

    ghost function Entries(): (s: seq<Entry<Node?>>)
      requires Slots()
      reads this, heap, nodes
      ensures |s| == lastEntry + 1
      ensures forall i :: 0 <= i <= lastEntry ==> s[i] == Entry(heap[i], heap[i].ts)
    {
      EntriesTo(lastEntry + 1)
    }

    ghost function EntriesTo(k: nat): (s: seq<Entry<Node?>>)
      requires Slots() && k <= lastEntry + 1
      reads this, heap, nodes
      ensures |s| == k
      ensures forall i :: 0 <= i < k ==> s[i] == Entry(heap[i], heap[i].ts)
    {
      if k == 0 then [] else EntriesTo(k - 1) + [Entry(heap[k - 1], heap[k - 1].ts)]
    }

    /** One step up: the parent comes down to `q`. */
    method Rise(q: int, p: int, ghost n: Node)
      requires Slots() && Tracked(n) && 0 <= p < q <= lastEntry && heap[q] == n
      modifies heap, nodes`heapLoc
      ensures Slots() && Tracked(n) && heap[p] == n
      ensures Entries() == Swapped(old(Entries()), q, p)
    {
      var t := heap[p];
      heap[p] := heap[q];
      heap[q] := t;
      t.heapLoc := q;
    }

    /** One step down: the child comes up to `q`. */
    method Sink(q: int, p: int, ghost n: Node)
      requires Slots() && Tracked(n) && 0 <= q < p <= lastEntry && (forall i :: 0 <= i <= lastEntry ==> heap[i] != n)
      modifies heap, nodes`heapLoc
      ensures Slots() && Tracked(n) && (forall i :: 0 <= i <= lastEntry ==> heap[i] != n)
      ensures Entries() == Swapped(old(Entries()), q, p)
    {
      var t := heap[p];
      heap[p] := heap[q];
      heap[p].heapLoc := p;
      heap[q] := t;
      heap[q].heapLoc := q;
    }

    constructor (size: nat, ghost nodes: set<Node>)
      requires size > 0 && forall n :: n in nodes ==> n.heapLoc == -1
      ensures Valid() && Entries() == [] && this.nodes == nodes && fresh(heap) && heap.Length == size
    {
      heap := new Node?[size](_ => null);
      lastEntry := -1;
      this.nodes := nodes;
    }

    method Append(ts: int, n: Node)
      requires Valid() && n in nodes && n.heapLoc == -1 && lastEntry + 1 < heap.Length
      modifies this`lastEntry, heap, n`ts
      ensures lastEntry == old(lastEntry) + 1 && Slots() && Tracked(n) && heap[lastEntry] == n
      ensures Entries() == old(Entries()) + [Entry(n, ts)]
    {
      lastEntry := lastEntry + 1;
      heap[lastEntry] := n;
      n.ts := ts;
    }

    method SiftUpLoop(n: Node)
      requires Slots() && lastEntry >= 0 && heap[lastEntry] == n && Tracked(n)
      modifies heap, nodes`heapLoc
      ensures Valid() && Entries() == SiftUp(old(Entries()), lastEntry)
    {
      hide Swapped, EntriesTo;
      ghost var goal := SiftUp(Entries(), lastEntry);
      var q := lastEntry;
      var p := q;
      while p != 0
        invariant 0 <= p == q <= lastEntry
        invariant Slots() && Tracked(n) && heap[q] == n
        invariant SiftUp(Entries(), q) == goal
        decreases p
      {
        p := (q - 1) / 2;
        if heap[p].ts > heap[q].ts {
          Rise(q, p, n);
          q := p;
        } else {
          break;
        }
      }
      n.heapLoc := q;
    }

    /** insert_: the heap array must have room for one more. */
    method InsertNode(ts: int, n: Node)
      requires Valid() && n in nodes && (n.heapLoc < 0 ==> lastEntry + 1 < heap.Length)
      modifies this`lastEntry, heap, n`ts, nodes`heapLoc
      ensures Valid()
      ensures Entries() == if old(n.heapLoc) >= 0 then old(Entries()) else Inserted(old(Entries()), Entry(n, ts))
    {
      hide SiftUp, EntriesTo;
      if n.heapLoc >= 0 {
        return;
      }
      Append(ts, n);
      SiftUpLoop(n);
    }

    /** insert: makes room first. */
    method Insert(ts: int, n: Node)
      requires Valid() && n in nodes && heap.Length > 0
      modifies this`heap, this`lastEntry, heap, n`ts, nodes`heapLoc
      ensures Valid() && (heap == old(heap) || fresh(heap)) && heap.Length >= old(heap.Length)
      ensures Entries() == if old(n.heapLoc) >= 0 then old(Entries()) else Inserted(old(Entries()), Entry(n, ts))
    {
      hide SiftUp, EntriesTo;
      if lastEntry == heap.Length - 1 {
        Grow();
      }
      InsertNode(ts, n);
    }

    method Grow()
      requires Valid() && lastEntry == heap.Length - 1
      modifies this`heap
      ensures Valid() && fresh(heap) && heap.Length == 2 * old(heap.Length) && Entries() == old(Entries())
    {
      var temp := new Node?[heap.Length * 2](_ => null);
      forall i | 0 <= i < heap.Length {
        temp[i] := heap[i];
      }
      heap := temp;
    }

    /** The last node takes the place of the one in slot `loc`. */
    method Replace(loc: int, n: Node)
      requires Valid() && 0 <= loc <= lastEntry && heap[loc] == n
      modifies this`lastEntry, heap, nodes`heapLoc
      ensures lastEntry == old(lastEntry) - 1 && Slots() && Tracked(n)
      ensures forall i :: 0 <= i <= lastEntry ==> heap[i] != n
      ensures Entries() == old(Entries())[loc := old(Entries())[lastEntry + 1]][..lastEntry + 1]
    {
      heap[loc] := heap[lastEntry];
      lastEntry := lastEntry - 1;
      heap[loc].heapLoc := loc;
    }

    method SiftDownLoop(loc: int, n: Node)
      requires Slots() && Tracked(n) && loc >= 0 && n in nodes && (forall i :: 0 <= i <= lastEntry ==> heap[i] != n)
      modifies heap, nodes`heapLoc
      ensures Valid() && n.heapLoc == -1 && Entries() == SiftDown(old(Entries()), loc)
    {
      hide SiftDown, Swapped, EntriesTo, Tracked, Valid;
      ghost var goal := SiftDown(Entries(), loc);
      var q := loc;
      var p := q * 2 + 1;
      while p <= lastEntry
        invariant q >= 0 && p == q * 2 + 1
        invariant Slots() && Tracked(n) && (forall i :: 0 <= i <= lastEntry ==> heap[i] != n)
        invariant SiftDown(Entries(), q) == goal
        decreases lastEntry - q
      {
        SiftDownStep(Entries(), q);
        if p + 1 <= lastEntry && heap[p].ts > heap[p + 1].ts {
          p := p + 1;
        }
        if heap[q].ts > heap[p].ts {
          Sink(q, p, n);
          q := p;
          p := q * 2 + 1;
        } else {
          break;
        }
      }
      SiftDownStep(Entries(), q);
      Unschedule(n);
    }

    method Unschedule(n: Node)
      requires Slots() && Tracked(n) && (forall i :: 0 <= i <= lastEntry ==> heap[i] != n)
      modifies n`heapLoc
      ensures Valid() && n.heapLoc == -1 && Entries() == old(Entries())
    {
      n.heapLoc := -1;
    }

    /** remove_ */
    method RemoveNode(n: Node)
      requires Valid() && n in nodes
      modifies this`lastEntry, heap, nodes`heapLoc
      ensures Valid() && n.heapLoc == -1
      ensures old(n.heapLoc) < 0 ==> Entries() == old(Entries())
      ensures old(n.heapLoc) >= 0 ==> old(n.heapLoc) < |old(Entries())| && old(Entries()[n.heapLoc]).node == n
      ensures old(n.heapLoc) >= 0 ==> Entries() == RemovedAt(old(Entries()), old(n.heapLoc))
    {
      hide SiftDown, EntriesTo;
      if n.heapLoc >= 0 {
        var loc := n.heapLoc;
        Replace(loc, n);
        SiftDownLoop(loc, n);
      }
    }

    /** When the first socket is due; 0 when none is scheduled. */
    method GetNextProcTime() returns (ts: int)
      requires Valid()
      ensures Entries() == [] ==> ts == 0
      ensures Entries() != [] ==> ts == Entries()[0].ts
      ensures Ordered(Entries()) ==> forall i :: 0 <= i < |Entries()| ==> ts <= Entries()[i].ts
    {
      if lastEntry == -1 {
        return 0;
      }
      forall i | 0 <= i < |Entries()| && Ordered(Entries()) ensures Entries()[0].ts <= Entries()[i].ts {
        RootIsFirst(Entries(), i);
      }
      ts := heap[0].ts;
    }

    /** `ready` says whether the socket is still connected and has a packet to send, `next` is
        when it is due again, or 0. */
    method Pop(now: int, ready: bool, next: int) returns (u: Node?)
      requires Valid()
      modifies this`lastEntry, heap, nodes
      ensures Valid() && Entries() == Popped(old(Entries()), now, ready, next)
      ensures u == if Due(old(Entries()), now) && ready then old(Entries())[0].node else null
    {
      hide SiftDown, SiftUp, EntriesTo;
      if lastEntry == -1 || now < heap[0].ts {
        return null;
      }
      u := heap[0];
      RemoveNode(u);
      if !ready {
        return null;
      }
      if next > 0 {
        InsertNode(next, u);
      }
    }

    /** A socket has data: it becomes due at once, unless it is scheduled and need not move. */
    method Update(n: Node, reschedule: bool)
      requires Valid() && n in nodes && (n.heapLoc < 0 ==> lastEntry + 1 < heap.Length)
      modifies this`lastEntry, heap, nodes
      ensures Valid()
      ensures old(n.heapLoc) >= 0 ==> old(n.heapLoc) < |old(Entries())| && old(Entries()[n.heapLoc]).node == n
      ensures old(n.heapLoc) < |old(Entries())|
      ensures Entries() == Updated(old(Entries()), n, old(n.heapLoc), reschedule)
    {
      hide SiftDown, SiftUp, EntriesTo;
      if n.heapLoc >= 0 {
        if !reschedule {
          return;
        }
        if n.heapLoc == 0 {
          n.ts := 1;
          return;
        }
        RemoveNode(n);
      }
      InsertNode(1, n);
    }
  }

  method NewNodes(size: nat) returns (all: seq<Node>)
    ensures |all| == size && forall i, j :: 0 <= i < j < size ==> all[i] != all[j]
    ensures forall i :: 0 <= i < size ==> fresh(all[i]) && all[i].heapLoc == -1
  {
    all := [];
    while |all| < size
      invariant |all| <= size && forall i, j :: 0 <= i < j < |all| ==> all[i] != all[j]
      invariant forall i :: 0 <= i < |all| ==> fresh(all[i]) && all[i].heapLoc == -1
    {
      var n := new Node();
      all := all + [n];
    }
  }

  /** All entries are those of `nodes`. */
  ghost predicate Among(s: seq<Entry<Node?>>, nodes: seq<Node>) {
    forall k :: 0 <= k < |s| ==> s[k].node in nodes
  }

  lemma AmongInserted(s: seq<Entry<Node?>>, nodes: seq<Node>, n: Node, ts: int)
    requires Among(s, nodes)
    ensures Among(Inserted(s, Entry(n, ts)), nodes + [n])
  {
    hide Inserted;
    var t := Inserted(s, Entry(n, ts));
    InsertedKeeps(s, Entry(n, ts));
    forall k | 0 <= k < |t| ensures t[k].node in nodes + [n] {
      assert t[k] in multiset(t);
    }
  }

  /** A node that is not among those on the schedule has no slot. */
  lemma NotListed(list: SndUList, nodes: seq<Node>, n: Node)
    requires list.Valid() && n in list.nodes && Among(list.Entries(), nodes) && n !in nodes
    ensures n.heapLoc == -1
  {
  }

  lemma OneLonger(s: seq<Entry<Node?>>, n: Node, ts: int)
    ensures |Inserted(s, Entry(n, ts))| == |s| + 1
  {
  }

  /** A full schedule, of any size, beside a socket that is not on it and cannot be updated. */
  method FullSchedule(size: nat) returns (list: SndUList, n: Node)
    requires size > 0
    ensures list.Valid() && n in list.nodes && n.heapLoc < 0 && list.lastEntry + 1 == list.heap.Length == size
  {
    hide Inserted, SndUList.EntriesTo;
    var all := NewNodes(size);
    n := new Node();
    ghost var nodes := set m | m in all;
    list := new SndUList(size, nodes + {n});
    var i := 0;
    while i < size
      invariant 0 <= i <= size && list.Valid() && list.nodes == nodes + {n} && fresh(list) && fresh(list.heap)
      invariant list.heap.Length == size && list.lastEntry + 1 == i && Among(list.Entries(), all[..i])
      invariant forall m :: m in list.nodes ==> fresh(m)
    {
      NotListed(list, all[..i], all[i]);
      AmongInserted(list.Entries(), all[..i], all[i], 1);
      OneLonger(list.Entries(), all[i], 1);
      list.InsertNode(1, all[i]);
      assert all[..i + 1] == all[..i] + [all[i]];
      i := i + 1;
    }
    NotListed(list, all[..i], n);
  }

  predicate Due<T>(s: seq<Entry<T>>, now: int) {
    s != [] && s[0].ts <= now
  }

  function Popped<T>(s: seq<Entry<T>>, now: int, ready: bool, next: int): seq<Entry<T>> {
    if !Due(s, now) then s
    else if ready && next > 0 then Inserted(RemovedAt(s, 0), Entry(s[0].node, next))
    else RemovedAt(s, 0)
  }

  // ---------------------------------------------------------------- rescheduling

  /** Slot `i` lies on the way from slot `m` up to the root. */
  predicate Above(i: nat, m: nat)
    decreases m
  {
    i == m || (m > 0 && Above(i, Parent(m)))
  }

  lemma {:induction false} AboveIsBefore(i: nat, m: nat)
    requires Above(i, m)
    ensures i <= m
    decreases m
  {
    if i != m {
      AboveIsBefore(i, Parent(m));
    }
  }

  /** `k` is due before its parent; apart from that pair only `q` may be due before its parent,
      and nothing is due before `q`. */
  predicate Broken<T>(s: seq<Entry<T>>, k: nat, q: nat)
    requires 0 < k < |s| && q < |s|
  {
    && q != k && s[Parent(k)].ts > s[k].ts
    && (forall i :: 0 <= i < |s| ==> s[q].ts <= s[i].ts)
    && (forall i :: 0 < i < |s| && i != k && i != q ==> s[Parent(i)].ts <= s[i].ts)
    && (q > 0 ==> forall i :: 0 < i < |s| && Parent(i) == q ==> s[Parent(q)].ts <= s[i].ts)
  }

  /** Off the broken pair, the entries on the way up are due no later. */
  lemma {:induction false} UpwardsEarlier<T>(s: seq<Entry<T>>, k: nat, q: nat, i: nat, r: nat)
    requires 0 < k < |s| && q < |s| && Broken(s, k, q) && r < q && Above(i, r) && !Above(k, r)
    ensures i <= r && s[i].ts <= s[r].ts
    decreases r
  {
    if i != r {
      UpwardsEarlier(s, k, q, i, Parent(r));
    }
  }

  lemma {:induction false} SiftUpLeaves<T>(s: seq<Entry<T>>, q: nat, i: nat)
    requires q < i < |s|
    ensures SiftUp(s, q)[i] == s[i]
    decreases q
  {
    if q > 0 && s[Parent(q)].ts > s[q].ts {
      SiftUpLeaves(Swapped(s, q, Parent(q)), Parent(q), i);
    }
  }

  lemma BrokenRises<T>(s: seq<Entry<T>>, k: nat, q: nat)
    requires 0 < k < |s| && 0 < q < |s| && Broken(s, k, q) && s[Parent(q)].ts > s[q].ts
    requires Parent(q) != Parent(k) && Parent(q) != k
    ensures Broken(Swapped(s, q, Parent(q)), k, Parent(q))
  {
    var r := Parent(q);
    var t := Swapped(s, q, r);
    assert t[k] == s[k] && t[Parent(k)].ts >= s[Parent(k)].ts && t[r] == s[q];
    forall i | 0 < i < |t| && i != k && i != r ensures t[Parent(i)].ts <= t[i].ts {
      RisenAt(s, k, q, i);
    }
    forall i | 0 < i < |t| && Parent(i) == r && r > 0 ensures t[Parent(r)].ts <= t[i].ts {
      assert s[Parent(r)].ts <= s[r].ts;
    }
  }

  lemma RisenAt<T>(s: seq<Entry<T>>, k: nat, q: nat, i: nat)
    requires 0 < k < |s| && 0 < q < |s| && Broken(s, k, q) && s[Parent(q)].ts > s[q].ts
    requires 0 < i < |s| && i != k && i != Parent(q)
    ensures Swapped(s, q, Parent(q))[Parent(i)].ts <= Swapped(s, q, Parent(q))[i].ts
  {
    var r := Parent(q);
    if Parent(i) == q {
      assert s[r].ts <= s[i].ts;
    } else if Parent(i) == r {
      assert s[q].ts <= s[i].ts;
    }
  }

  /** The entry on its way up passes the sibling of `k`: the pair is mended if the entry stops
      there, or if the grandparent, which comes down, is due no later than `k`. */
  lemma PassesSibling<T>(s: seq<Entry<T>>, k: nat, q: nat)
    requires 0 < k < |s| && 0 < q < |s| && Broken(s, k, q) && Parent(q) == Parent(k)
    ensures Ordered(SiftUp(s, q)) <==> Parent(k) == 0 || s[Parent(Parent(k))].ts <= s[k].ts
  {
    var p := Parent(k);
    var t := Swapped(s, q, p);
    if p > 0 && s[Parent(p)].ts > s[k].ts {
      var u := Swapped(t, p, Parent(p));
      assert SiftUp(s, q) == SiftUp(u, Parent(p));
      SiftUpLeaves(u, Parent(p), p);
      SiftUpLeaves(u, Parent(p), k);
    } else {
      assert OrderedButUp(t, p) by {
        forall i | 0 < i < |t| && i != p ensures t[Parent(i)].ts <= t[i].ts {
          assert Parent(i) == q ==> s[Parent(q)].ts <= s[i].ts;
        }
        assert p > 0 ==> s[Parent(p)].ts <= s[p].ts;
      }
      SiftUpOrders(t, p);
    }
  }

  /** The entry passes through `k`: what it pushes down stays out of order. */
  lemma PassesThrough<T>(s: seq<Entry<T>>, k: nat, q: nat)
    requires 0 < k < |s| && 0 < q < |s| && Broken(s, k, q) && Parent(q) == k && s[k].ts > s[q].ts
    ensures !Ordered(SiftUp(s, q))
  {
    var t := Swapped(s, q, k);
    var u := Swapped(t, k, Parent(k));
    assert SiftUp(s, q) == SiftUp(u, Parent(k));
    SiftUpLeaves(u, Parent(k), k);
    SiftUpLeaves(u, Parent(k), q);
  }

  /** When an entry due before all others rises, the broken pair is mended exactly in this case. */
  lemma {:induction false} RisingMends<T>(s: seq<Entry<T>>, k: nat, q: nat)
    requires 0 < k < |s| && q < |s| && Broken(s, k, q)
    ensures Ordered(SiftUp(s, q)) <==>
      Above(Parent(k), q) && !Above(k, q) && (Parent(k) == 0 || s[Parent(Parent(k))].ts <= s[k].ts)
    decreases q
  {
    var p := Parent(k);
    if q == 0 || s[Parent(q)].ts <= s[q].ts {
      if q > 0 && Above(p, q) && !Above(k, q) {
        UpwardsEarlier(s, k, q, p, Parent(q));
      }
    } else if Parent(q) == p {
      PassesSibling(s, k, q);
      NotOwnSibling(k, q);
    } else if Parent(q) == k {
      PassesThrough(s, k, q);
      assert Above(k, q);
    } else {
      var r := Parent(q);
      BrokenRises(s, k, q);
      RisingMends(Swapped(s, q, r), k, r);
      if Above(p, r) {
        AboveIsBefore(p, r);
      }
    }
  }

  lemma NotOwnSibling(k: nat, q: nat)
    requires k > 0 && q > 0 && k != q && Parent(k) == Parent(q)
    ensures Above(Parent(k), q) && !Above(k, q)
  {
    if Above(k, Parent(q)) {
      AboveIsBefore(k, Parent(q));
    }
  }

  lemma MovedIsBroken<T>(s: seq<Entry<T>>, k: nat, node: T)
    requires Ordered(s) && 0 < k < |s| - 1 && s[Parent(k)].ts > s[|s| - 1].ts
    requires forall i :: 0 <= i < |s| ==> s[i].ts >= 1
    ensures Broken(s[k := s[|s| - 1]][..|s| - 1] + [Entry(node, 1)], k, |s| - 1)
  {
    var m := |s| - 1;
    var u := s[k := s[m]][..m] + [Entry(node, 1)];
    assert |u| == |s| && u[k] == s[m] && u[m].ts == 1;
    assert forall i :: 0 <= i < m && i != k ==> u[i] == s[i];
    forall i | 0 < i < |u| && i != k && i != m ensures u[Parent(i)].ts <= u[i].ts {
      if Parent(i) == k {
        assert s[Parent(k)].ts <= s[k].ts <= s[i].ts;
      }
    }
  }

  /** Moving an interior entry to the front keeps the order exactly when the removal does, or
      when the vacated place `k` hangs beside the way up from the last slot and the entry that
      took it is due no earlier than its grandparent. */
  lemma RescheduledOrders<T>(s: seq<Entry<T>>, k: nat, node: T)
    requires Ordered(s) && 0 < k < |s| && forall i :: 0 <= i < |s| ==> s[i].ts >= 1
    ensures var m, p := |s| - 1, Parent(k);
      Ordered(Inserted(RemovedAt(s, k), Entry(node, 1))) <==>
      || k == m || s[p].ts <= s[m].ts
      || (Above(p, m) && !Above(k, m) && (p == 0 || s[Parent(p)].ts <= s[m].ts))
  {
    hide Ordered, Inserted, RemovedAt, Above;
    var m, p := |s| - 1, Parent(k);
    if k == m || s[p].ts <= s[m].ts {
      RemovedOrders(s, k);
      InsertedOrders(RemovedAt(s, k), Entry(node, 1));
    } else {
      MovedOrders(s, k, node);
    }
  }

  lemma MovedOrders<T>(s: seq<Entry<T>>, k: nat, node: T)
    requires Ordered(s) && 0 < k < |s| - 1 && s[Parent(k)].ts > s[|s| - 1].ts
    requires forall i :: 0 <= i < |s| ==> s[i].ts >= 1
    ensures var m, p := |s| - 1, Parent(k);
      Ordered(Inserted(RemovedAt(s, k), Entry(node, 1))) <==>
      Above(p, m) && !Above(k, m) && (p == 0 || s[Parent(p)].ts <= s[m].ts)
  {
    hide Ordered, RemovedAt, Above, Broken, SiftUp;
    var m, p := |s| - 1, Parent(k);
    var u := s[k := s[m]][..m] + [Entry(node, 1)];
    NothingSinks(s, k);
    MovedIsBroken(s, k, node);
    RisingMends(u, k, m);
    assert u[k] == s[m] && u[p] == s[p] && (p > 0 ==> u[Parent(p)] == s[Parent(p)]);
  }

  /** An entry due before the parent of the place it takes is due before the children too. */
  lemma NothingSinks<T>(s: seq<Entry<T>>, k: nat)
    requires Ordered(s) && 0 < k < |s| - 1 && s[Parent(k)].ts > s[|s| - 1].ts
    ensures RemovedAt(s, k) == s[k := s[|s| - 1]][..|s| - 1]
  {
    var t := s[k := s[|s| - 1]][..|s| - 1];
    if 2 * k + 1 < |t| {
      var c := FirstChild(t, k);
      assert s[Parent(k)].ts <= s[k].ts <= s[c].ts;
    }
  }

  // ---------------------------------------------------------------- runs

  /** The value of `SndUList.Update`: `slot` is the socket's slot, negative if it has none. */
  function Updated<T>(s: seq<Entry<T>>, node: T, slot: int, reschedule: bool): seq<Entry<T>>
    requires slot < |s|
  {
    if slot < 0 then Inserted(s, Entry(node, 1))
    else if !reschedule then s
    else if slot == 0 then s[0 := Entry(node, 1)]
    else Inserted(RemovedAt(s, slot), Entry(node, 1))
  }

  datatype Op<T> =
    | Inserting(node: T, ts: int)
    | Popping(now: int, ready: bool, next: int)
    | Removing(slot: int)
    | Updating(node: T, slot: int, reschedule: bool)

  predicate Enabled<T>(s: seq<Entry<T>>, op: Op<T>) {
    match op
    case Removing(slot) => slot < |s|
    case Updating(_, slot, _) => slot < |s|
    case _ => true
  }

  function Apply<T>(s: seq<Entry<T>>, op: Op<T>): seq<Entry<T>>
    requires Enabled(s, op)
  {
    match op
    case Inserting(node, ts) => Inserted(s, Entry(node, ts))
    case Popping(now, ready, next) => Popped(s, now, ready, next)
    case Removing(slot) => if slot < 0 then s else RemovedAt(s, slot)
    case Updating(node, slot, reschedule) => Updated(s, node, slot, reschedule)
  }

  /** Every operation can be performed where its turn comes. */
  predicate AllEnabled<T>(s: seq<Entry<T>>, ops: seq<Op<T>>)
    decreases |ops|
  {
    ops == [] || (Enabled(s, ops[0]) && AllEnabled(Apply(s, ops[0]), ops[1..]))
  }

  function Run<T>(s: seq<Entry<T>>, ops: seq<Op<T>>): seq<Entry<T>>
    requires AllEnabled(s, ops)
    decreases |ops|
  {
    if ops == [] then s else Run(Apply(s, ops[0]), ops[1..])
  }

  /** Nothing is due before 1, the time `update` gives. */
  predicate Timely<T>(s: seq<Entry<T>>) {
    forall i :: 0 <= i < |s| ==> s[i].ts >= 1
  }

  /** No interior entry moves, or its removal and its return leave the order intact. */
  predicate Orderly<T>(s: seq<Entry<T>>, op: Op<T>)
    requires Enabled(s, op)
  {
    match op
    case Inserting(_, _) => true
    case Popping(_, _, _) => true
    case Removing(k) => 0 < k < |s| - 1 ==> s[Parent(k)].ts <= s[|s| - 1].ts
    case Updating(_, k, reschedule) =>
      k > 0 && reschedule ==>
        var m, p := |s| - 1, Parent(k);
        || k == m || s[p].ts <= s[m].ts
        || (Above(p, m) && !Above(k, m) && (p == 0 || s[Parent(p)].ts <= s[m].ts))
  }

  /** One operation on an ordered schedule keeps it ordered exactly when it is orderly. */
  lemma OrderlyExactly<T>(s: seq<Entry<T>>, op: Op<T>)
    requires Ordered(s) && Enabled(s, op) && Timely(s)
    ensures Ordered(Apply(s, op)) <==> Orderly(s, op)
  {
    match op
    case Inserting(node, ts) =>
      InsertedOrders(s, Entry(node, ts));
    case Popping(now, ready, next) =>
      PoppedOrders(s, now, ready, next);
    case Removing(slot) =>
      if slot >= 0 {
        RemovedOrders(s, slot);
      }
    case Updating(node, slot, reschedule) =>
      UpdatedOrders(s, node, slot, reschedule);
  }

  lemma PoppedOrders<T>(s: seq<Entry<T>>, now: int, ready: bool, next: int)
    requires Ordered(s)
    ensures Ordered(Popped(s, now, ready, next))
  {
    hide Inserted, RemovedAt, Ordered;
    if Due(s, now) {
      RootRemovalOrders(s);
      InsertedOrders(RemovedAt(s, 0), Entry(s[0].node, next));
    }
  }

  lemma UpdatedOrders<T>(s: seq<Entry<T>>, node: T, slot: int, reschedule: bool)
    requires Ordered(s) && slot < |s| && Timely(s)
    ensures Ordered(Updated(s, node, slot, reschedule)) <==> Orderly(s, Updating(node, slot, reschedule))
  {
    hide Inserted, RemovedAt;
    if slot < 0 {
      InsertedOrders(s, Entry(node, 1));
    } else if slot > 0 && reschedule {
      RescheduledOrders(s, slot, node);
    }
  }

  /** The times stay at 1 or later. */
  lemma ApplyTimely<T>(s: seq<Entry<T>>, op: Op<T>)
    requires Timely(s) && Enabled(s, op) && (op.Inserting? ==> op.ts >= 1)
    ensures Timely(Apply(s, op))
  {
    hide Inserted, RemovedAt;
    match op
    case Inserting(node, ts) =>
      InsertedTimely(s, Entry(node, ts));
    case Popping(now, ready, next) =>
      if Due(s, now) {
        RemovedTimely(s, 0);
        if next > 0 {
          InsertedTimely(RemovedAt(s, 0), Entry(s[0].node, next));
        }
      }
    case Removing(slot) =>
      if slot >= 0 {
        RemovedTimely(s, slot);
      }
    case Updating(node, slot, reschedule) =>
      InsertedTimely(s, Entry(node, 1));
      if slot >= 0 {
        RemovedTimely(s, slot);
        InsertedTimely(RemovedAt(s, slot), Entry(node, 1));
      }
  }

  lemma InsertedTimely<T>(s: seq<Entry<T>>, e: Entry<T>)
    requires Timely(s) && e.ts >= 1
    ensures Timely(Inserted(s, e))
  {
    hide Inserted;
    InsertedKeeps(s, e);
    var t := Inserted(s, e);
    forall i | 0 <= i < |t| ensures t[i].ts >= 1 {
      assert t[i] in multiset(t);
    }
  }

  lemma RemovedTimely<T>(s: seq<Entry<T>>, k: nat)
    requires Timely(s) && k < |s|
    ensures Timely(RemovedAt(s, k))
  {
    hide RemovedAt;
    RemovedKeeps(s, k);
    var t := RemovedAt(s, k);
    forall i | 0 <= i < |t| ensures t[i].ts >= 1 {
      assert t[i] in multiset(t);
    }
  }

  /** What each operation does to the entries: a pop takes the one due first once its time has
      come, which returns with its next time only if it sent and has one; an update leaves the
      socket due at 1, or where it was if it need not move. */
  lemma AppliedExactly<T>(s: seq<Entry<T>>, op: Op<T>)
    requires Ordered(s) && Enabled(s, op)
    ensures var before, after := multiset(s), multiset(Apply(s, op));
      match op
      case Inserting(node, ts) => after == before + multiset{Entry(node, ts)}
      case Popping(now, ready, next) =>
        if forall i :: 0 <= i < |s| ==> s[i].ts > now then Apply(s, op) == s
        else
          && (forall i :: 0 <= i < |s| ==> s[0].ts <= s[i].ts)
          && after == before - multiset{s[0]} +
               if ready && next > 0 then multiset{Entry(s[0].node, next)} else multiset{}
      case Removing(slot) => after == if slot < 0 then before else before - multiset{s[slot]}
      case Updating(node, slot, reschedule) =>
        if slot < 0 then after == before + multiset{Entry(node, 1)}
        else if reschedule then after == before - multiset{s[slot]} + multiset{Entry(node, 1)}
        else Apply(s, op) == s
  {
    hide Inserted, RemovedAt;
    match op
    case Inserting(node, ts) => InsertedKeeps(s, Entry(node, ts));
    case Popping(now, ready, next) => PoppedExactly(s, now, ready, next);
    case Removing(slot) =>
      if slot >= 0 {
        RemovedKeeps(s, slot);
      }
    case Updating(node, slot, reschedule) =>
      UpdatedExactly(s, node, slot, reschedule);
  }

  lemma PoppedExactly<T>(s: seq<Entry<T>>, now: int, ready: bool, next: int)
    requires Ordered(s)
    ensures var t := Popped(s, now, ready, next);
      if forall i :: 0 <= i < |s| ==> s[i].ts > now then t == s
      else
        && (forall i :: 0 <= i < |s| ==> s[0].ts <= s[i].ts)
        && multiset(t) == multiset(s) - multiset{s[0]} +
             if ready && next > 0 then multiset{Entry(s[0].node, next)} else multiset{}
  {
    hide Inserted, RemovedAt, Ordered;
    forall i | 0 <= i < |s| ensures s[0].ts <= s[i].ts {
      RootIsFirst(s, i);
    }
    if Due(s, now) {
      RemovedKeeps(s, 0);
      InsertedKeeps(RemovedAt(s, 0), Entry(s[0].node, next));
    }
  }

  lemma UpdatedExactly<T>(s: seq<Entry<T>>, node: T, slot: int, reschedule: bool)
    requires slot < |s|
    ensures var before, after := multiset(s), multiset(Updated(s, node, slot, reschedule));
      if slot < 0 then after == before + multiset{Entry(node, 1)}
      else if reschedule then after == before - multiset{s[slot]} + multiset{Entry(node, 1)}
      else Updated(s, node, slot, reschedule) == s
  {
    hide Inserted, RemovedAt;
    if slot < 0 {
      InsertedKeeps(s, Entry(node, 1));
    } else if reschedule {
      Replaced(s, slot, Entry(node, 1));
      RemovedKeeps(s, slot);
      InsertedKeeps(RemovedAt(s, slot), Entry(node, 1));
    }
  }

  /** Every operation of the run is orderly where its turn comes. */
  predicate AllOrderly<T>(s: seq<Entry<T>>, ops: seq<Op<T>>)
    requires AllEnabled(s, ops)
    decreases |ops|
  {
    ops == [] || (Orderly(s, ops[0]) && AllOrderly(Apply(s, ops[0]), ops[1..]))
  }

  /** However sockets are inserted at times from 1 on, popped, removed and updated, the root stays
      the one due first as long as the operations on interior entries are orderly. */
  lemma {:induction false} RunsKeepOrder<T>(s: seq<Entry<T>>, ops: seq<Op<T>>, i: nat)
    requires Ordered(s) && Timely(s) && AllEnabled(s, ops) && AllOrderly(s, ops)
    requires forall k :: 0 <= k < |ops| && ops[k].Inserting? ==> ops[k].ts >= 1
    ensures Ordered(Run(s, ops))
    ensures i < |Run(s, ops)| ==> Run(s, ops)[0].ts <= Run(s, ops)[i].ts
    decreases |ops|
  {
    hide Inserted, RemovedAt, Ordered, Timely, Orderly, Apply;
    if ops == [] {
      if i < |s| {
        RootIsFirst(s, i);
      }
    } else {
      OrderlyExactly(s, ops[0]);
      ApplyTimely(s, ops[0]);
      RunsKeepOrder(Apply(s, ops[0]), ops[1..], i);
    }
  }

  /** Runs of insertions, pops and updates of sockets that are unscheduled, first or left where
      they are need no condition. */
  lemma {:induction false} UsualRunsOrderly<T>(s: seq<Entry<T>>, ops: seq<Op<T>>)
    requires AllEnabled(s, ops)
    requires forall k :: 0 <= k < |ops| ==>
      !ops[k].Removing? && (ops[k].Updating? && ops[k].reschedule ==> ops[k].slot <= 0)
    ensures AllOrderly(s, ops)
    decreases |ops|
  {
    if ops != [] {
      UsualRunsOrderly(Apply(s, ops[0]), ops[1..]);
    }
  }

  /** Insertions at any time and pops keep the order of any ordered schedule. */
  lemma {:induction false} PopRunsKeepOrder<T>(s: seq<Entry<T>>, ops: seq<Op<T>>, i: nat)
    requires Ordered(s) && AllEnabled(s, ops)
    requires forall k :: 0 <= k < |ops| ==> ops[k].Inserting? || ops[k].Popping?
    ensures Ordered(Run(s, ops))
    ensures i < |Run(s, ops)| ==> Run(s, ops)[0].ts <= Run(s, ops)[i].ts
    decreases |ops|
  {
    hide Inserted, Popped, Ordered;
    if ops == [] {
      if i < |s| {
        RootIsFirst(s, i);
      }
    } else {
      match ops[0] {
        case Inserting(node, ts) => InsertedOrders(s, Entry(node, ts));
        case Popping(now, ready, next) => PoppedOrders(s, now, ready, next);
      }
      PopRunsKeepOrder(Apply(s, ops[0]), ops[1..], i);
    }
  }
}
