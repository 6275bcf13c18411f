/** The representation both loss lists share: a sequence of disjoint ranges of stream
    positions, stored in fixed arrays.

    The node of the range that starts at position x sits in slot `Loc(size, anchor, x)`:
    the slot is forced by the distance of x from the position kept in slot 0.  `Cells` holds
    the three arrays (range start, range end, next slot), with -1 for "nothing here". */
module LossNodes {
  import opened SeqNo
  import opened Ring

  datatype Range = Range(lo: int, hi: int)

  datatype Cells = Cells(d1: seq<int>, d2: seq<int>, nx: seq<int>)

  /** The positions from `lo` to `hi`, both included. */
  function Span(lo: int, hi: int): (s: set<int>)
    ensures forall x :: x in s <==> lo <= x <= hi
    decreases hi - lo
  {
    if lo > hi then {} else Span(lo, hi - 1) + {hi}
  }

  lemma {:induction false} SpanSize(lo: int, hi: int)
    requires lo <= hi + 1
    ensures |Span(lo, hi)| == hi - lo + 1
    decreases hi - lo + 1
  {
    if lo <= hi {
      SpanSize(lo, hi - 1);
    }
  }

  // ---------------------------------------------------------------- ranges

  /** Ranges are non-empty and in ascending order; each ends before the next one starts,
      except that range `open` may still run over its successors (-1: none does). */
  ghost predicate Ordered(ns: seq<Range>, open: int) {
    && (forall k :: 0 <= k < |ns| ==> ns[k].lo <= ns[k].hi)
    && (forall i, j :: 0 <= i < j < |ns| ==>
          ns[i].lo < ns[j].lo && (i != open ==> ns[i].hi < ns[j].lo))
  }

  /** All ranges lie in a window of `size` positions that starts with the first range. */
  ghost predicate Narrow(ns: seq<Range>, size: int) {
    forall k :: 0 <= k < |ns| ==> ns[k].hi - ns[0].lo < size
  }

  predicate Covers(ns: seq<Range>, x: int) {
    exists k :: 0 <= k < |ns| && ns[k].lo <= x <= ns[k].hi
  }

  /** All positions in the ranges. */
  function Members(ns: seq<Range>): (s: set<int>)
    ensures forall x :: x in s <==> Covers(ns, x)
  {
    if |ns| == 0 then {}
    else
      var front := ns[..|ns| - 1];
      var s := Members(front) + Span(ns[|ns| - 1].lo, ns[|ns| - 1].hi);
      assert forall x :: x in s <==> Covers(ns, x) by {
        CoversLast(ns);
      }
      s
  }

  lemma CoversLast(ns: seq<Range>)
    requires |ns| > 0
    ensures forall x :: Covers(ns, x) <==> Covers(ns[..|ns| - 1], x) || ns[|ns| - 1].lo <= x <= ns[|ns| - 1].hi
  {
    var front := ns[..|ns| - 1];
    assert forall k :: 0 <= k < |front| ==> ns[k] == front[k];
    forall x | Covers(front, x)
      ensures Covers(ns, x)
    {
      var k :| 0 <= k < |front| && front[k].lo <= x <= front[k].hi;
      assert ns[k] == front[k];
    }
  }

  function Total(ns: seq<Range>): int {
    if |ns| == 0 then 0
    else Total(ns[..|ns| - 1]) + ns[|ns| - 1].hi - ns[|ns| - 1].lo + 1
  }

  lemma {:induction false} TotalConcat(a: seq<Range>, b: seq<Range>)
    ensures Total(a + b) == Total(a) + Total(b)
  {
    if |b| == 0 {
      assert a + b == a;
    } else {
      TotalConcat(a, b[..|b| - 1]);
      assert (a + b)[..|a + b| - 1] == a + b[..|b| - 1];
    }
  }

  /** Replacing ranges i..j by `mid` changes the total by the difference of the parts. */
  lemma TotalSplice(ns: seq<Range>, i: int, j: int, mid: seq<Range>)
    requires 0 <= i <= j <= |ns|
    ensures Total(ns[..i] + mid + ns[j..]) == Total(ns) - Total(ns[i..j]) + Total(mid)
  {
    assert ns == ns[..i] + ns[i..j] + ns[j..];
    TotalConcat(ns[..i] + ns[i..j], ns[j..]);
    TotalConcat(ns[..i], ns[i..j]);
    TotalConcat(ns[..i] + mid, ns[j..]);
    TotalConcat(ns[..i], mid);
  }

  lemma FrontBelowLast(ns: seq<Range>)
    requires |ns| > 0 && Ordered(ns, -1)
    ensures Members(ns[..|ns| - 1]) !! Span(ns[|ns| - 1].lo, ns[|ns| - 1].hi)
  {
    var front, last := ns[..|ns| - 1], ns[|ns| - 1];
    forall x | x in Members(front)
      ensures x < last.lo
    {
      var k :| 0 <= k < |front| && front[k].lo <= x <= front[k].hi;
      assert ns[k] == front[k];
    }
  }

  /** For disjoint ranges the total is the number of members. */
  lemma {:induction false} TotalIsSize(ns: seq<Range>)
    requires Ordered(ns, -1)
    ensures |Members(ns)| == Total(ns)
  {
    if |ns| > 0 {
      var last := ns[|ns| - 1];
      FrontOrdered(ns);
      TotalIsSize(ns[..|ns| - 1]);
      SpanSize(last.lo, last.hi);
      FrontBelowLast(ns);
      DisjointSize(Members(ns[..|ns| - 1]), Span(last.lo, last.hi));
    }
  }

  lemma FrontOrdered(ns: seq<Range>)
    requires |ns| > 0 && Ordered(ns, -1)
    ensures Ordered(ns[..|ns| - 1], -1)
  {
  }

  lemma DisjointSize(a: set<int>, b: set<int>)
    requires a !! b
    ensures |a + b| == |a| + |b|
  {
  }

  // ---------------------------------------------------------------- cells

  ghost function EndCell(r: Range): int {
    if r.lo == r.hi then -1 else Wrap(r.hi)
  }

  ghost function NextCell(size: int, anchor: int, ns: seq<Range>, k: int): int
    requires size > 0 && 0 <= k < |ns|
  {
    if k + 1 < |ns| then Loc(size, anchor, ns[k + 1].lo) else -1
  }

  /** The slot of range `k` describes it and points at range `k + 1`. */
  ghost predicate NodeAt(size: int, anchor: int, c: Cells, ns: seq<Range>, k: int)
    requires size > 0 && |c.d1| == |c.d2| == |c.nx| == size
    requires 0 <= k < |ns|
  {
    var p := Loc(size, anchor, ns[k].lo);
    c.d1[p] == Wrap(ns[k].lo) && c.d2[p] == EndCell(ns[k]) && c.nx[p] == NextCell(size, anchor, ns, k)
  }

  ghost predicate Owned(size: int, anchor: int, ns: seq<Range>, p: int)
    requires size > 0
  {
    exists k :: 0 <= k < |ns| && Loc(size, anchor, ns[k].lo) == p
  }

  lemma OwnedAt(size: int, anchor: int, ns: seq<Range>, k: int)
    requires size > 0 && 0 <= k < |ns|
    ensures Owned(size, anchor, ns, Loc(size, anchor, ns[k].lo))
  {
  }

  /** The arrays hold exactly the ranges `ns`: every other slot is empty. */
  ghost predicate Stored(size: int, anchor: int, c: Cells, ns: seq<Range>) {
    && size > 0 && |c.d1| == |c.d2| == |c.nx| == size
    && (forall k :: 0 <= k < |ns| ==> NodeAt(size, anchor, c, ns, k))
    && (forall p :: 0 <= p < size && c.d1[p] != -1 ==> Owned(size, anchor, ns, p))
    && (forall p :: 0 <= p < size && c.d1[p] == -1 ==> c.d2[p] == -1)
  }

  ghost function FirstCell(size: int, anchor: int, ns: seq<Range>): int
    requires size > 0
  {
    if |ns| == 0 then -1 else Loc(size, anchor, ns[0].lo)
  }

  lemma LocsDiffer(size: int, anchor: int, ns: seq<Range>, open: int, i: int, j: int)
    requires size > 0 && Ordered(ns, open) && Narrow(ns, size)
    requires 0 <= i < |ns| && 0 <= j < |ns| && i != j
    ensures Loc(size, anchor, ns[i].lo) != Loc(size, anchor, ns[j].lo)
  {
    assert ns[0].lo <= ns[i].lo <= ns[i].hi && ns[0].lo <= ns[j].lo <= ns[j].hi;
    LocInjective(size, anchor, ns[i].lo, ns[j].lo);
  }

  lemma TailOwned(size: int, anchor: int, ns: seq<Range>, p: int)
    requires size > 0 && Owned(size, anchor, ns, p) && p != FirstCell(size, anchor, ns)
    ensures |ns| > 0 && Owned(size, anchor, ns[1..], p)
  {
    var k :| 0 <= k < |ns| && Loc(size, anchor, ns[k].lo) == p;
    assert ns[1..][k - 1] == ns[k];
  }

  lemma KeepOwned(size: int, anchor: int, ns: seq<Range>, ns': seq<Range>, p: int)
    requires size > 0 && |ns| == |ns'| && forall j :: 0 <= j < |ns| ==> ns'[j].lo == ns[j].lo
    ensures Owned(size, anchor, ns, p) ==> Owned(size, anchor, ns', p)
  {
    if Owned(size, anchor, ns, p) {
      var j :| 0 <= j < |ns| && Loc(size, anchor, ns[j].lo) == p;
      assert ns'[j].lo == ns[j].lo;
    }
  }

  /** Which slot starts a range at position `x`, for any `x` near the ranges. */
  lemma StartCell(size: int, anchor: int, c: Cells, ns: seq<Range>, open: int, x: int)
    requires 0 < size < SEQ_NO_TH
    requires Ordered(ns, open) && Narrow(ns, size) && Stored(size, anchor, c, ns)
    requires |ns| > 0 && -SEQ_NO_TH < x - ns[0].lo < SEQ_NO_TH
    ensures c.d1[Loc(size, anchor, x)] == Wrap(x) <==> exists k :: 0 <= k < |ns| && ns[k].lo == x
  {
    var p := Loc(size, anchor, x);
    if k :| 0 <= k < |ns| && ns[k].lo == x {
      assert NodeAt(size, anchor, c, ns, k);
    } else if c.d1[p] == Wrap(x) {
      var k :| 0 <= k < |ns| && Loc(size, anchor, ns[k].lo) == p;
      assert NodeAt(size, anchor, c, ns, k);
      assert ns[0].lo <= ns[k].lo <= ns[k].hi;
      WrapEqual(ns[k].lo, x, ns[0].lo, size);
    }
  }

  lemma WrapEqual(y: int, x: int, base: int, size: int)
    requires 0 < size < SEQ_NO_TH && 0 <= y - base < size && -SEQ_NO_TH < x - base < SEQ_NO_TH
    requires Wrap(x) == Wrap(y)
    ensures x == y
  {
    if x <= y { WrapDiff(x, y); } else { WrapDiff(y, x); }
  }

  // ---------------------------------------------------------------- splices

  /** Range `k` gets a new end. */
  lemma StoredSetEnd(size: int, anchor: int, c: Cells, ns: seq<Range>, open: int, k: int, hi: int)
    returns (c': Cells, ns': seq<Range>)
    requires Ordered(ns, open) && Narrow(ns, size) && Stored(size, anchor, c, ns)
    requires 0 <= k < |ns| && ns[k].lo <= hi
    ensures ns' == ns[k := Range(ns[k].lo, hi)]
    ensures c' == c.(d2 := c.d2[Loc(size, anchor, ns[k].lo) := EndCell(ns'[k])])
    ensures Stored(size, anchor, c', ns')
  {
    ns' := ns[k := Range(ns[k].lo, hi)];
    var p := Loc(size, anchor, ns[k].lo);
    c' := c.(d2 := c.d2[p := EndCell(ns'[k])]);
    forall j | 0 <= j < |ns'|
      ensures NodeAt(size, anchor, c', ns', j)
    {
      assert NodeAt(size, anchor, c, ns, j);
      if j != k { LocsDiffer(size, anchor, ns, open, j, k); }
    }
    forall q | 0 <= q < size && c'.d1[q] != -1
      ensures Owned(size, anchor, ns', q)
    {
      var j :| 0 <= j < |ns| && Loc(size, anchor, ns[j].lo) == q;
      assert ns'[j].lo == ns[j].lo;
    }
    assert NodeAt(size, anchor, c, ns, k);
  }

  ghost function Inserted(ns: seq<Range>, k: int, r: Range): (ns': seq<Range>)
    requires 0 <= k <= |ns|
    ensures |ns'| == |ns| + 1 && ns'[k] == r
    ensures forall j :: 0 <= j < k ==> ns'[j] == ns[j]
    ensures forall j :: k < j <= |ns| ==> ns'[j] == ns[j - 1]
  {
    ns[..k] + [r] + ns[k..]
  }

  lemma InsertedOrdered(ns: seq<Range>, k: int, r: Range)
    requires 0 <= k <= |ns| && Ordered(ns, -1) && r.lo <= r.hi
    requires k > 0 ==> ns[k - 1].hi < r.lo
    requires k < |ns| ==> r.lo < ns[k].lo
    ensures Ordered(Inserted(ns, k, r), k)
  {
    var ns' := Inserted(ns, k, r);
    forall i, j | 0 <= i < j < |ns'|
      ensures ns'[i].lo <= ns'[i].hi && ns'[j].lo <= ns'[j].hi
      ensures ns'[i].lo < ns'[j].lo && (i != k ==> ns'[i].hi < ns'[j].lo)
    {
      var oi, oj := if i < k then i else i - 1, if j < k then j else j - 1;
      if i == k {
        assert ns'[j] == ns[oj] && ns[k].lo <= ns[oj].lo;
      } else if j == k {
        assert ns'[i] == ns[oi] && ns[oi].hi <= ns[k - 1].hi;
      } else {
        assert ns'[i] == ns[oi] && ns'[j] == ns[oj];
      }
    }
  }

  lemma InsertedNarrow(ns: seq<Range>, k: int, r: Range, size: int)
    requires 0 <= k <= |ns| && Ordered(ns, -1) && Narrow(ns, size)
    requires r.lo <= r.hi < r.lo + size
    requires |ns| > 0 ==> ns[|ns| - 1].hi - r.lo < size && r.hi - ns[0].lo < size
    ensures Narrow(Inserted(ns, k, r), size)
  {
    var ns' := Inserted(ns, k, r);
    forall i | 0 <= i < |ns'|
      ensures ns'[i].hi - ns'[0].lo < size
    {
      if i != k {
        var oi := if i < k then i else i - 1;
        assert ns'[i] == ns[oi] && ns[oi].hi <= ns[|ns| - 1].hi;
      }
    }
  }

  ghost function InsertedCells(size: int, anchor: int, c: Cells, ns: seq<Range>, k: int, r: Range): (c': Cells)
    requires size > 0 && |c.d1| == |c.d2| == |c.nx| == size
    requires 0 <= k <= |ns|
  {
    var p := Loc(size, anchor, r.lo);
    var nx := c.nx[p := NextCell(size, anchor, Inserted(ns, k, r), k)];
    Cells(c.d1[p := Wrap(r.lo)], c.d2[p := EndCell(r)],
          if k == 0 then nx else nx[Loc(size, anchor, ns[k - 1].lo) := p])
  }

  lemma InsertSlotFree(size: int, anchor: int, c: Cells, ns: seq<Range>, k: int, r: Range)
    requires Stored(size, anchor, c, ns)
    requires 0 <= k <= |ns|
    requires Narrow(Inserted(ns, k, r), size) && Ordered(Inserted(ns, k, r), k)
    ensures c.d1[Loc(size, anchor, r.lo)] == -1 && c.d2[Loc(size, anchor, r.lo)] == -1
  {
    var ns', p := Inserted(ns, k, r), Loc(size, anchor, r.lo);
    if c.d1[p] != -1 {
      var j :| 0 <= j < |ns| && Loc(size, anchor, ns[j].lo) == p;
      LocsDiffer(size, anchor, ns', k, k, if j < k then j else j + 1);
    }
  }

  lemma InsertNodeAt(size: int, anchor: int, c: Cells, ns: seq<Range>, k: int, r: Range, j: int)
    requires Stored(size, anchor, c, ns)
    requires 0 <= k <= |ns| && 0 <= j <= |ns|
    requires Narrow(Inserted(ns, k, r), size) && Ordered(Inserted(ns, k, r), k)
    ensures NodeAt(size, anchor, InsertedCells(size, anchor, c, ns, k, r), Inserted(ns, k, r), j)
  {
    var ns', c' := Inserted(ns, k, r), InsertedCells(size, anchor, c, ns, k, r);
    if j == k {
      if k > 0 {
        LocsDiffer(size, anchor, ns', k, k, k - 1);
      }
    } else {
      var i := if j < k then j else j - 1;
      assert NodeAt(size, anchor, c, ns, i);
      hide Ordered, Narrow, Stored, Loc, Wrap, EndCell, Inserted;
      var p := Loc(size, anchor, ns[i].lo);
      assert ns'[j] == ns[i];
      LocsDiffer(size, anchor, ns', k, j, k);
      assert c'.d1[p] == c.d1[p] && c'.d2[p] == c.d2[p];
      if j != k - 1 {
        if k > 0 {
          LocsDiffer(size, anchor, ns', k, j, k - 1);
        }
        assert c'.nx[p] == c.nx[p];
      }
    }
  }

  /** Range `r` becomes range number `k`, in the free slot its start belongs to. */
  lemma StoredInsert(size: int, anchor: int, c: Cells, ns: seq<Range>, k: int, r: Range)
    requires Stored(size, anchor, c, ns)
    requires 0 <= k <= |ns|
    requires Narrow(Inserted(ns, k, r), size) && Ordered(Inserted(ns, k, r), k)
    ensures c.d1[Loc(size, anchor, r.lo)] == -1 && c.d2[Loc(size, anchor, r.lo)] == -1
    ensures Stored(size, anchor, InsertedCells(size, anchor, c, ns, k, r), Inserted(ns, k, r))
  {
    var ns', c' := Inserted(ns, k, r), InsertedCells(size, anchor, c, ns, k, r);
    InsertSlotFree(size, anchor, c, ns, k, r);
    forall j | 0 <= j < |ns'|
      ensures NodeAt(size, anchor, c', ns', j)
    {
      InsertNodeAt(size, anchor, c, ns, k, r, j);
    }
    forall q | 0 <= q < size && c'.d1[q] != -1
      ensures Owned(size, anchor, ns', q)
    {
      if q == Loc(size, anchor, r.lo) {
        assert ns'[k] == r;
      } else {
        var j :| 0 <= j < |ns| && Loc(size, anchor, ns[j].lo) == q;
        assert ns'[if j < k then j else j + 1] == ns[j];
      }
    }
  }

  ghost function Removed(ns: seq<Range>, k: int): (ns': seq<Range>)
    requires 0 <= k < |ns|
    ensures |ns'| == |ns| - 1
    ensures forall j :: 0 <= j < k ==> ns'[j] == ns[j]
    ensures forall j :: k <= j < |ns'| ==> ns'[j] == ns[j + 1]
  {
    ns[..k] + ns[k + 1..]
  }

  ghost function RemovedCells(size: int, anchor: int, c: Cells, ns: seq<Range>, k: int): (c': Cells)
    requires size > 0 && |c.d1| == |c.d2| == |c.nx| == size
    requires 0 <= k < |ns|
  {
    var p := Loc(size, anchor, ns[k].lo);
    Cells(c.d1[p := -1], c.d2[p := -1],
          if k == 0 then c.nx else c.nx[Loc(size, anchor, ns[k - 1].lo) := c.nx[p]])
  }

  lemma RemoveNodeAt(size: int, anchor: int, c: Cells, ns: seq<Range>, open: int, k: int, j: int)
    requires Ordered(ns, open) && Narrow(ns, size) && Stored(size, anchor, c, ns)
    requires 0 <= k < |ns| && 0 <= j < |ns| - 1
    ensures NodeAt(size, anchor, RemovedCells(size, anchor, c, ns, k), Removed(ns, k), j)
  {
    var i := if j < k then j else j + 1;
    assert NodeAt(size, anchor, c, ns, i) && NodeAt(size, anchor, c, ns, k);
    hide Ordered, Narrow, Stored, Loc, Wrap, EndCell, Removed;
    var ns', c' := Removed(ns, k), RemovedCells(size, anchor, c, ns, k);
    var p := Loc(size, anchor, ns[i].lo);
    assert ns'[j] == ns[i];
    LocsDiffer(size, anchor, ns, open, i, k);
    assert c'.d1[p] == c.d1[p] && c'.d2[p] == c.d2[p];
    if j == k - 1 {
      assert c'.nx[p] == NextCell(size, anchor, ns, k);
    } else {
      if k > 0 {
        LocsDiffer(size, anchor, ns, open, i, k - 1);
      }
      assert c'.nx[p] == c.nx[p];
    }
  }

  /** Range `k` leaves the list and its slot becomes empty. */
  lemma StoredRemove(size: int, anchor: int, c: Cells, ns: seq<Range>, open: int, k: int)
    requires Ordered(ns, open) && Narrow(ns, size) && Stored(size, anchor, c, ns)
    requires 0 <= k < |ns|
    ensures Stored(size, anchor, RemovedCells(size, anchor, c, ns, k), Removed(ns, k))
  {
    var ns', c' := Removed(ns, k), RemovedCells(size, anchor, c, ns, k);
    forall j | 0 <= j < |ns'|
      ensures NodeAt(size, anchor, c', ns', j)
    {
      RemoveNodeAt(size, anchor, c, ns, open, k, j);
    }
    forall q | 0 <= q < size && c'.d1[q] != -1
      ensures Owned(size, anchor, ns', q)
    {
      var j :| 0 <= j < |ns| && Loc(size, anchor, ns[j].lo) == q;
      assert ns'[if j < k then j else j - 1] == ns[j];
    }
  }

  ghost function AdvancedCells(size: int, anchor: int, c: Cells, ns: seq<Range>, k: int): (c': Cells)
    requires size > 0 && |c.d1| == |c.d2| == |c.nx| == size
    requires 0 <= k < |ns|
  {
    var p, q := Loc(size, anchor, ns[k].lo), Loc(size, anchor, ns[k].lo + 1);
    var nx := c.nx[q := c.nx[p]];
    Cells(c.d1[q := Wrap(ns[k].lo + 1)][p := -1],
          c.d2[q := EndCell(Range(ns[k].lo + 1, ns[k].hi))][p := -1],
          if k == 0 then nx else nx[Loc(size, anchor, ns[k - 1].lo) := q])
  }

  lemma NextSlotFree(size: int, anchor: int, c: Cells, ns: seq<Range>, k: int, x: int)
    requires Ordered(ns, -1) && Narrow(ns, size) && Stored(size, anchor, c, ns)
    requires 0 <= k < |ns| && ns[k].lo < x <= ns[k].hi
    ensures forall j :: 0 <= j < |ns| ==> Loc(size, anchor, ns[j].lo) != Loc(size, anchor, x)
    ensures c.d1[Loc(size, anchor, x)] == -1 && c.d2[Loc(size, anchor, x)] == -1
  {
    forall j | 0 <= j < |ns|
      ensures Loc(size, anchor, ns[j].lo) != Loc(size, anchor, x)
    {
      assert ns[0].lo <= ns[j].lo <= ns[j].hi && ns[0].lo <= ns[k].lo;
      LocInjective(size, anchor, ns[j].lo, x);
    }
  }

  lemma AdvanceNodeAt(size: int, anchor: int, c: Cells, ns: seq<Range>, k: int, j: int)
    requires Ordered(ns, -1) && Narrow(ns, size) && Stored(size, anchor, c, ns)
    requires 0 <= k < |ns| && ns[k].lo < ns[k].hi && 0 <= j < |ns|
    ensures NodeAt(size, anchor, AdvancedCells(size, anchor, c, ns, k), ns[k := Range(ns[k].lo + 1, ns[k].hi)], j)
  {
    assert NodeAt(size, anchor, c, ns, j) && NodeAt(size, anchor, c, ns, k);
    assert ns[j].lo <= ns[j].hi && ns[k].hi - ns[k].lo < size;
    hide Ordered, Narrow, Stored, Loc, Wrap;
    NextSlotFree(size, anchor, c, ns, k, ns[k].lo + 1);
    if j != k {
      LocsDiffer(size, anchor, ns, -1, j, k);
    }
    if k > 0 && j != k - 1 {
      LocsDiffer(size, anchor, ns, -1, j, k - 1);
    }
  }

  /** Range `k` loses its first position, so its node moves to the next slot. */
  lemma StoredAdvance(size: int, anchor: int, c: Cells, ns: seq<Range>, k: int)
    requires Ordered(ns, -1) && Narrow(ns, size) && Stored(size, anchor, c, ns)
    requires 0 <= k < |ns| && ns[k].lo < ns[k].hi
    ensures Stored(size, anchor, AdvancedCells(size, anchor, c, ns, k), ns[k := Range(ns[k].lo + 1, ns[k].hi)])
  {
    var ns', c' := ns[k := Range(ns[k].lo + 1, ns[k].hi)], AdvancedCells(size, anchor, c, ns, k);
    forall j | 0 <= j < |ns'|
      ensures NodeAt(size, anchor, c', ns', j)
    {
      AdvanceNodeAt(size, anchor, c, ns, k, j);
    }
    NextSlotFree(size, anchor, c, ns, k, ns[k].lo + 1);
    forall q | 0 <= q < size && c'.d1[q] != -1
      ensures Owned(size, anchor, ns', q)
    {
      if q == Loc(size, anchor, ns[k].lo + 1) {
        assert ns'[k].lo == ns[k].lo + 1;
      } else {
        var j :| 0 <= j < |ns| && Loc(size, anchor, ns[j].lo) == q;
        assert ns'[j] == ns[j];
      }
    }
  }

  // ---------------------------------------------------------------- what the splices do to the members

  lemma {:induction false} MembersConcat(a: seq<Range>, b: seq<Range>)
    ensures Members(a + b) == Members(a) + Members(b)
  {
    hide Covers, Span;
    if |b| == 0 {
      assert a + b == a;
    } else {
      MembersConcat(a, b[..|b| - 1]);
      assert (a + b)[..|a + b| - 1] == a + b[..|b| - 1];
    }
  }

  /** Replacing ranges i..j by `mid` keeps the members of the other ranges. */
  lemma MembersSplice(ns: seq<Range>, i: int, j: int, mid: seq<Range>)
    requires 0 <= i <= j <= |ns|
    ensures Members(ns[..i] + mid + ns[j..]) == Members(ns[..i]) + Members(mid) + Members(ns[j..])
    ensures Members(ns) == Members(ns[..i]) + Members(ns[i..j]) + Members(ns[j..])
  {
    assert ns == ns[..i] + ns[i..j] + ns[j..];
    MembersConcat(ns[..i] + ns[i..j], ns[j..]);
    MembersConcat(ns[..i], ns[i..j]);
    MembersConcat(ns[..i] + mid, ns[j..]);
    MembersConcat(ns[..i], mid);
  }

  lemma MembersOne(r: Range)
    ensures Members([r]) == Span(r.lo, r.hi)
  {
    assert [r][..0] == [];
    assert Members([r]) == Members([]) + Span(r.lo, r.hi);
  }

  lemma MembersSetEnd(ns: seq<Range>, k: int, hi: int)
    requires 0 <= k < |ns| && ns[k].lo <= ns[k].hi <= hi
    ensures Members(ns[k := Range(ns[k].lo, hi)]) == Members(ns) + Span(ns[k].lo, hi)
  {
    var r := Range(ns[k].lo, hi);
    assert ns[k := r] == ns[..k] + [r] + ns[k + 1..];
    assert ns[k..k + 1] == [ns[k]];
    MembersSplice(ns, k, k + 1, [r]);
    MembersOne(r);
    MembersOne(ns[k]);
  }

  lemma MembersInsert(ns: seq<Range>, k: int, r: Range)
    requires 0 <= k <= |ns|
    ensures Members(Inserted(ns, k, r)) == Members(ns) + Span(r.lo, r.hi)
  {
    assert ns[k..k] == [];
    MembersSplice(ns, k, k, [r]);
    MembersOne(r);
  }

  /** Range `k` swallows range `k + 1`, which starts no later than just behind it. */
  lemma MembersMerge(ns: seq<Range>, k: int, hi: int)
    requires 0 <= k < |ns| - 1 && ns[k].lo <= ns[k].hi && ns[k].lo <= ns[k + 1].lo <= ns[k].hi + 1
    requires ns[k + 1].lo <= ns[k + 1].hi && hi == (if ns[k].hi < ns[k + 1].hi then ns[k + 1].hi else ns[k].hi)
    ensures Members(Removed(ns, k + 1)[k := Range(ns[k].lo, hi)]) == Members(ns)
  {
    hide Members;
    var r := Range(ns[k].lo, hi);
    assert Removed(ns, k + 1)[k := r] == ns[..k] + [r] + ns[k + 2..];
    assert ns[k..k + 2] == [ns[k]] + [ns[k + 1]];
    MembersConcat([ns[k]], [ns[k + 1]]);
    MembersSplice(ns, k, k + 2, [r]);
    MembersOne(r);
    MembersOne(ns[k]);
    MembersOne(ns[k + 1]);
  }

  lemma {:induction false} TotalPositive(ns: seq<Range>)
    requires Ordered(ns, -1)
    ensures Total(ns) >= |ns|
  {
    if |ns| > 0 {
      FrontOrdered(ns);
      TotalPositive(ns[..|ns| - 1]);
    }
  }

  lemma TotalSetEnd(ns: seq<Range>, k: int, r: Range)
    requires 0 <= k < |ns|
    ensures Total(ns[k := r]) == Total(ns) - (ns[k].hi - ns[k].lo) + (r.hi - r.lo)
  {
    assert ns[k := r] == ns[..k] + [r] + ns[k + 1..];
    assert ns[k..k + 1] == [ns[k]];
    TotalSplice(ns, k, k + 1, [r]);
  }

  lemma TotalInsert(ns: seq<Range>, k: int, r: Range)
    requires 0 <= k <= |ns|
    ensures Total(Inserted(ns, k, r)) == Total(ns) + r.hi - r.lo + 1
  {
    assert ns[k..k] == [];
    TotalSplice(ns, k, k, [r]);
  }

  lemma TotalRemove(ns: seq<Range>, k: int)
    requires 0 <= k < |ns|
    ensures Total(Removed(ns, k)) == Total(ns) - (ns[k].hi - ns[k].lo + 1)
  {
    TotalFew(ns[k]);
    hide Total;
    assert ns[k..k + 1] == [ns[k]];
    assert Removed(ns, k) == ns[..k] + [] + ns[k + 1..];
    TotalSplice(ns, k, k + 1, []);
  }

  lemma TotalFew(r: Range)
    ensures Total([]) == 0 && Total([r]) == r.hi - r.lo + 1
  {
    assert [r][..0] == [];
  }

  ghost function Merged(ns: seq<Range>, k: int): (ns': seq<Range>)
    requires 0 <= k < |ns| - 1
    ensures |ns'| == |ns| - 1
  {
    Removed(ns, k + 1)[k := Range(ns[k].lo, if ns[k].hi < ns[k + 1].hi then ns[k + 1].hi else ns[k].hi)]
  }

  lemma MergedOrdered(ns: seq<Range>, k: int, size: int)
    requires 0 <= k < |ns| - 1 && Ordered(ns, k) && Narrow(ns, size)
    ensures Ordered(Removed(ns, k + 1), k) && Narrow(Removed(ns, k + 1), size)
    ensures Ordered(Merged(ns, k), k) && Narrow(Merged(ns, k), size)
  {
    var ns1, ns' := Removed(ns, k + 1), Merged(ns, k);
    forall i, j | 0 <= i < j < |ns1|
      ensures ns1[i].lo <= ns1[i].hi && ns1[j].lo <= ns1[j].hi
      ensures ns1[i].lo < ns1[j].lo && (i != k ==> ns1[i].hi < ns1[j].lo)
    {
      var oi, oj := if i <= k then i else i + 1, if j <= k then j else j + 1;
      assert ns1[i] == ns[oi] && ns1[j] == ns[oj];
    }
    forall i | 0 <= i < |ns1|
      ensures ns1[i].lo <= ns1[i].hi && ns1[i].hi - ns1[0].lo < size
    {
      assert ns1[i] == ns[if i <= k then i else i + 1];
    }
  }

  lemma ClosedOrdered(ns: seq<Range>, k: int)
    requires 0 <= k < |ns| && Ordered(ns, k)
    requires k + 1 < |ns| ==> ns[k].hi < ns[k + 1].lo || ns[k].lo == ns[k].hi
    ensures Ordered(ns, -1)
  {
  }

  /** Total of the merged ranges: the overlap was counted twice before. */
  lemma MergedTotal(ns: seq<Range>, k: int)
    requires 0 <= k < |ns| - 1
    ensures Total(Merged(ns, k)) == Total(ns) - (ns[k + 1].hi - ns[k + 1].lo + 1)
              + (if ns[k].hi < ns[k + 1].hi then ns[k + 1].hi - ns[k].hi else 0)
  {
    TotalRemove(ns, k + 1);
    var ns1 := Removed(ns, k + 1);
    assert ns1[k] == ns[k];
    TotalSetEnd(ns1, k, Merged(ns, k)[k]);
  }

  ghost function MergedCells(size: int, anchor: int, c: Cells, ns: seq<Range>, k: int): (c': Cells)
    requires size > 0 && |c.d1| == |c.d2| == |c.nx| == size
    requires 0 <= k < |ns| - 1
  {
    var p, q := Loc(size, anchor, ns[k].lo), Loc(size, anchor, ns[k + 1].lo);
    Cells(c.d1[q := -1], c.d2[p := EndCell(Merged(ns, k)[k])][q := -1], c.nx[p := c.nx[q]])
  }

  lemma StoredMerge(size: int, anchor: int, c: Cells, ns: seq<Range>, k: int)
    requires 0 <= k < |ns| - 1 && Ordered(ns, k) && Narrow(ns, size) && Stored(size, anchor, c, ns)
    ensures Stored(size, anchor, MergedCells(size, anchor, c, ns, k), Merged(ns, k))
  {
    MergedOrdered(ns, k, size);
    StoredRemove(size, anchor, c, ns, k, k + 1);
    var ns1 := Removed(ns, k + 1);
    assert ns1[k] == ns[k];
    var c', ns' := StoredSetEnd(size, anchor, RemovedCells(size, anchor, c, ns, k + 1), ns1, k, k, Merged(ns, k)[k].hi);
    LocsDiffer(size, anchor, ns, k, k, k + 1);
    assert c'.d2 == MergedCells(size, anchor, c, ns, k).d2;
  }

  // ---------------------------------------------------------------- cutting

  /** The ranges without their first position. */
  ghost function WithoutFirst(ns: seq<Range>): seq<Range>
    requires |ns| > 0
  {
    if ns[0].lo == ns[0].hi then ns[1..] else ns[0 := Range(ns[0].lo + 1, ns[0].hi)]
  }

  lemma TailRanges(ns: seq<Range>, t: int, size: int)
    requires 0 <= t <= |ns| && Ordered(ns, -1) && Narrow(ns, size)
    ensures Ordered(ns[t..], -1) && Narrow(ns[t..], size)
  {
    var ns' := ns[t..];
    forall i, j | 0 <= i < j < |ns'|
      ensures ns'[i].lo < ns'[j].lo && ns'[i].hi < ns'[j].lo
    {
      assert ns'[i] == ns[t + i] && ns'[j] == ns[t + j];
    }
    forall i | 0 <= i < |ns'|
      ensures ns'[i].lo <= ns'[i].hi && ns'[i].hi - ns'[0].lo < size
    {
      assert ns'[i] == ns[t + i] && ns'[0] == ns[t] && ns[0].lo <= ns[t].lo;
    }
  }

  lemma TailTotal(ns: seq<Range>)
    requires |ns| > 0
    ensures Total(ns[1..]) == Total(ns) - (ns[0].hi - ns[0].lo + 1)
  {
    hide Total;
    TotalConcat([ns[0]], ns[1..]);
    assert [ns[0]] + ns[1..] == ns;
    TotalOne(ns[0]);
  }

  lemma TotalOne(r: Range)
    ensures Total([r]) == r.hi - r.lo + 1
  {
    assert [r][..0] == [];
  }

  lemma WithoutFirstRanges(ns: seq<Range>, size: int)
    requires |ns| > 0 && Ordered(ns, -1) && Narrow(ns, size)
    ensures Ordered(WithoutFirst(ns), -1) && Narrow(WithoutFirst(ns), size)
    ensures Total(WithoutFirst(ns)) == Total(ns) - 1
  {
    hide Total;
    if ns[0].lo == ns[0].hi {
      TailRanges(ns, 1, size);
      TailTotal(ns);
    } else {
      TotalSetEnd(ns, 0, Range(ns[0].lo + 1, ns[0].hi));
    }
  }

  lemma TailMembers(ns: seq<Range>, t: int, s: int)
    requires 0 <= t <= |ns| && Ordered(ns, -1)
    requires t < |ns| ==> s < ns[t].lo
    ensures forall x :: x in Members(ns[t..]) ==> s < x
  {
    hide Members;
    forall x | x in Members(ns[t..])
      ensures s < x
    {
      var k :| 0 <= k < |ns[t..]| && ns[t..][k].lo <= x <= ns[t..][k].hi;
      assert ns[t..][k] == ns[t + k];
    }
  }

  lemma FrontMembers(ns: seq<Range>, t: int, s: int)
    requires 0 <= t <= |ns| && Ordered(ns, -1)
    requires t > 0 ==> ns[t - 1].hi <= s
    ensures forall x :: x in Members(ns[..t]) ==> x <= s
  {
    hide Members;
    forall x | x in Members(ns[..t])
      ensures x <= s
    {
      var k :| 0 <= k < |ns[..t]| && ns[..t][k].lo <= x <= ns[..t][k].hi;
      assert ns[..t][k] == ns[k];
      if k < t - 1 { assert ns[k].hi < ns[t - 1].lo <= ns[t - 1].hi; }
    }
  }

  lemma WithoutFirstMembers(ns: seq<Range>)
    requires |ns| > 0 && Ordered(ns, -1)
    ensures Members(WithoutFirst(ns)) == Members(ns) - {ns[0].lo}
    ensures ns[0].lo in Members(ns) && forall x :: x in Members(ns) ==> ns[0].lo <= x
  {
    hide Members, Covers, Span, WithoutFirst;
    var r := ns[0];
    assert r.lo <= r.hi;
    assert ns == [r] + ns[1..];
    MembersConcat([r], ns[1..]);
    MembersOne(r);
    TailMembers(ns, 1, r.hi);
    WithoutFirstShape(ns);
    if r.lo < r.hi {
      MembersConcat([Range(r.lo + 1, r.hi)], ns[1..]);
      MembersOne(Range(r.lo + 1, r.hi));
    }
  }

  lemma WithoutFirstShape(ns: seq<Range>)
    requires |ns| > 0
    ensures WithoutFirst(ns) ==
              if ns[0].lo == ns[0].hi then ns[1..] else [Range(ns[0].lo + 1, ns[0].hi)] + ns[1..]
  {
  }

  /** Dropping the ranges up to `s` drops exactly the members up to `s`. */
  lemma CutMembers(ns: seq<Range>, t: int, s: int)
    requires 0 <= t <= |ns| && Ordered(ns, -1)
    requires t > 0 ==> ns[t - 1].hi <= s
    requires t < |ns| ==> s < ns[t].lo
    ensures forall x :: x in Members(ns[t..]) <==> x in Members(ns) && x > s
  {
    hide Members, Covers;
    assert ns == ns[..t] + ns[t..];
    MembersConcat(ns[..t], ns[t..]);
    FrontMembers(ns, t, s);
    TailMembers(ns, t, s);
  }

  /** Range `k` cut in two: one part up to `s`, the other behind it. */
  ghost function Split(ns: seq<Range>, k: int, s: int): (ns': seq<Range>)
    requires 0 <= k < |ns|
    ensures |ns'| == |ns| + 1
  {
    Inserted(ns[k := Range(ns[k].lo, s)], k + 1, Range(s + 1, ns[k].hi))
  }

  lemma SplitRanges(ns: seq<Range>, k: int, s: int, size: int)
    requires 0 <= k < |ns| && Ordered(ns, -1) && Narrow(ns, size) && ns[k].lo <= s < ns[k].hi
    ensures Ordered(Split(ns, k, s), -1) && Narrow(Split(ns, k, s), size)
    ensures Ordered(ns[k := Range(ns[k].lo, s)], -1) && Narrow(ns[k := Range(ns[k].lo, s)], size)
  {
    var ns1, r, last := ns[k := Range(ns[k].lo, s)], Range(s + 1, ns[k].hi), ns[|ns| - 1];
    ShortenedRanges(ns, k, s, size);
    assert k + 1 < |ns| ==> r.hi < ns[k + 1].lo;
    assert ns[0].lo <= ns[k].lo && last.hi - ns[0].lo < size && r.hi - ns[0].lo < size;
    hide Ordered, Narrow;
    InsertedOrdered(ns1, k + 1, r);
    ClosedOrdered(Split(ns, k, s), k + 1);
    InsertedNarrow(ns1, k + 1, r, size);
  }

  lemma ShortenedRanges(ns: seq<Range>, k: int, s: int, size: int)
    requires 0 <= k < |ns| && Ordered(ns, -1) && Narrow(ns, size) && ns[k].lo <= s < ns[k].hi
    ensures Ordered(ns[k := Range(ns[k].lo, s)], -1) && Narrow(ns[k := Range(ns[k].lo, s)], size)
  {
  }

  lemma SplitShape(ns: seq<Range>, k: int, s: int)
    requires 0 <= k < |ns|
    ensures Split(ns, k, s) == ns[..k] + ([Range(ns[k].lo, s)] + [Range(s + 1, ns[k].hi)]) + ns[k + 1..]
    ensures Split(ns, k, s) == Inserted(ns[k := Range(ns[k].lo, s)], k + 1, Range(s + 1, ns[k].hi))
    ensures ns[k..k + 1] == [ns[k]]
  {
    var a, b := Range(ns[k].lo, s), Range(s + 1, ns[k].hi);
    assert ns[k := a][..k + 1] == ns[..k] + [a];
    assert ns[k := a][k + 1..] == ns[k + 1..];
    assert (ns[..k] + [a]) + [b] == ns[..k] + ([a] + [b]);
  }

  lemma SplitMembers(ns: seq<Range>, k: int, s: int)
    requires 0 <= k < |ns| && ns[k].lo <= s < ns[k].hi
    ensures Members(Split(ns, k, s)) == Members(ns)
    ensures Total(Split(ns, k, s)) == Total(ns)
  {
    hide Members, Total, Covers, Span, Split;
    var a, b := Range(ns[k].lo, s), Range(s + 1, ns[k].hi);
    SplitShape(ns, k, s);
    MembersSplice(ns, k, k + 1, [a] + [b]);
    MembersConcat([a], [b]);
    MembersOne(a);
    MembersOne(b);
    MembersOne(ns[k]);
    TotalSetEnd(ns, k, a);
    TotalInsert(ns[k := a], k + 1, b);
  }

  ghost function SplitCells(size: int, anchor: int, c: Cells, ns: seq<Range>, k: int, s: int): (c': Cells)
    requires size > 0 && |c.d1| == |c.d2| == |c.nx| == size
    requires 0 <= k < |ns|
  {
    var p, q := Loc(size, anchor, ns[k].lo), Loc(size, anchor, s + 1);
    Cells(c.d1[q := Wrap(s + 1)], c.d2[q := EndCell(Range(s + 1, ns[k].hi))][p := EndCell(Range(ns[k].lo, s))],
          c.nx[q := c.nx[p]][p := q])
  }

  lemma StoredSplit(size: int, anchor: int, c: Cells, ns: seq<Range>, k: int, s: int)
    requires 0 <= k < |ns| && Ordered(ns, -1) && Narrow(ns, size) && ns[k].lo <= s < ns[k].hi
    requires Stored(size, anchor, c, ns)
    ensures Stored(size, anchor, SplitCells(size, anchor, c, ns, k, s), Split(ns, k, s))
    ensures c.d1[Loc(size, anchor, s + 1)] == -1 && c.d2[Loc(size, anchor, s + 1)] == -1
    ensures Loc(size, anchor, s + 1) != Loc(size, anchor, ns[k].lo)
  {
    hide Ordered, Narrow, Stored;
    SplitRanges(ns, k, s, size);
    NextSlotFree(size, anchor, c, ns, k, s + 1);
    var c1, ns1 := StoredSetEnd(size, anchor, c, ns, -1, k, s);
    var b := Range(s + 1, ns[k].hi);
    AlsoOpenAt(Split(ns, k, s), k + 1);
    StoredInsert(size, anchor, c1, ns1, k + 1, b);
    StoredNode(size, anchor, c, ns, k);
    assert NextCell(size, anchor, Split(ns, k, s), k + 1) == c.nx[Loc(size, anchor, ns[k].lo)];
    assert InsertedCells(size, anchor, c1, ns1, k + 1, b) == SplitCells(size, anchor, c, ns, k, s);
  }

  lemma AlsoOpenAt(ns: seq<Range>, k: int)
    requires Ordered(ns, -1)
    ensures Ordered(ns, k)
  {
  }

  lemma StoredNode(size: int, anchor: int, c: Cells, ns: seq<Range>, k: int)
    requires Stored(size, anchor, c, ns) && 0 <= k < |ns|
    ensures size > 0 && |c.d1| == |c.d2| == |c.nx| == size && NodeAt(size, anchor, c, ns, k)
  {
  }

  // ---------------------------------------------------------------- back links

  /** The slot of every range points back at the range before it. */
  ghost predicate Linked(size: int, anchor: int, pr: seq<int>, ns: seq<Range>) {
    && size > 0 && |pr| == size
    && forall k :: 0 <= k < |ns| ==> BackAt(size, anchor, pr, ns, k)
  }

  ghost predicate BackAt(size: int, anchor: int, pr: seq<int>, ns: seq<Range>, k: int)
    requires size > 0 && |pr| == size && 0 <= k < |ns|
  {
    pr[Loc(size, anchor, ns[k].lo)] == if k > 0 then Loc(size, anchor, ns[k - 1].lo) else -1
  }

  /** Back links only depend on where the ranges start. */
  lemma LinkedSameStarts(size: int, anchor: int, pr: seq<int>, ns: seq<Range>, ns': seq<Range>)
    requires Linked(size, anchor, pr, ns)
    requires |ns| == |ns'| && forall k :: 0 <= k < |ns| ==> ns'[k].lo == ns[k].lo
    ensures Linked(size, anchor, pr, ns')
  {
    forall k | 0 <= k < |ns'|
      ensures BackAt(size, anchor, pr, ns', k)
    {
      assert BackAt(size, anchor, pr, ns, k);
    }
  }

  /** `pr` with the link of the range behind number `k`, if there is one, set to `v`. */
  ghost function Relinked(size: int, anchor: int, pr: seq<int>, ns: seq<Range>, k: int, v: int): (pr': seq<int>)
    requires size > 0 && |pr| == size && 0 <= k < |ns|
    ensures |pr'| == size
  {
    if k + 1 < |ns| then pr[Loc(size, anchor, ns[k + 1].lo) := v] else pr
  }

  lemma LinkedRemove(size: int, anchor: int, pr: seq<int>, ns: seq<Range>, k: int)
    requires Ordered(ns, -1) && Narrow(ns, size) && Linked(size, anchor, pr, ns) && 0 <= k < |ns|
    ensures Linked(size, anchor, Relinked(size, anchor, pr, ns, k, pr[Loc(size, anchor, ns[k].lo)]), Removed(ns, k))
  {
    var pr', ns' := Relinked(size, anchor, pr, ns, k, pr[Loc(size, anchor, ns[k].lo)]), Removed(ns, k);
    forall j | 0 <= j < |ns'|
      ensures BackAt(size, anchor, pr', ns', j)
    {
      var i := if j < k then j else j + 1;
      assert BackAt(size, anchor, pr, ns, i) && BackAt(size, anchor, pr, ns, k);
      if i != k + 1 && k + 1 < |ns| { LocsDiffer(size, anchor, ns, -1, i, k + 1); }
    }
  }

  lemma LinkedAdvance(size: int, anchor: int, pr: seq<int>, ns: seq<Range>, c: Cells, k: int)
    requires Ordered(ns, -1) && Narrow(ns, size) && Linked(size, anchor, pr, ns) && Stored(size, anchor, c, ns)
    requires 0 <= k < |ns| && ns[k].lo < ns[k].hi
    ensures var p, q := Loc(size, anchor, ns[k].lo), Loc(size, anchor, ns[k].lo + 1);
            Linked(size, anchor, Relinked(size, anchor, pr[q := pr[p]], ns, k, q),
                   ns[k := Range(ns[k].lo + 1, ns[k].hi)])
  {
    var p, q := Loc(size, anchor, ns[k].lo), Loc(size, anchor, ns[k].lo + 1);
    var pr', ns' := Relinked(size, anchor, pr[q := pr[p]], ns, k, q), ns[k := Range(ns[k].lo + 1, ns[k].hi)];
    NextSlotFree(size, anchor, c, ns, k, ns[k].lo + 1);
    forall j | 0 <= j < |ns'|
      ensures BackAt(size, anchor, pr', ns', j)
    {
      assert BackAt(size, anchor, pr, ns, j) && BackAt(size, anchor, pr, ns, k);
      if j != k + 1 && k + 1 < |ns| { LocsDiffer(size, anchor, ns, -1, j, k + 1); }
    }
  }

  lemma LinkedSplit(size: int, anchor: int, pr: seq<int>, ns: seq<Range>, c: Cells, k: int, s: int)
    requires Ordered(ns, -1) && Narrow(ns, size) && Linked(size, anchor, pr, ns) && Stored(size, anchor, c, ns)
    requires 0 <= k < |ns| && ns[k].lo <= s < ns[k].hi
    ensures var p, q := Loc(size, anchor, ns[k].lo), Loc(size, anchor, s + 1);
            Linked(size, anchor, Relinked(size, anchor, pr[q := p], ns, k, q), Split(ns, k, s))
  {
    var p, q := Loc(size, anchor, ns[k].lo), Loc(size, anchor, s + 1);
    var pr', ns' := Relinked(size, anchor, pr[q := p], ns, k, q), Split(ns, k, s);
    NextSlotFree(size, anchor, c, ns, k, s + 1);
    forall j | 0 <= j < |ns'|
      ensures BackAt(size, anchor, pr', ns', j)
    {
      SplitBackAt(size, anchor, pr, ns, k, s, j);
    }
  }

  lemma SplitBackAt(size: int, anchor: int, pr: seq<int>, ns: seq<Range>, k: int, s: int, j: int)
    requires Ordered(ns, -1) && Narrow(ns, size) && Linked(size, anchor, pr, ns)
    requires 0 <= k < |ns| && 0 <= j <= |ns|
    requires forall i :: 0 <= i < |ns| ==> Loc(size, anchor, ns[i].lo) != Loc(size, anchor, s + 1)
    ensures var p, q := Loc(size, anchor, ns[k].lo), Loc(size, anchor, s + 1);
            BackAt(size, anchor, Relinked(size, anchor, pr[q := p], ns, k, q), Split(ns, k, s), j)
  {
    var ns' := Split(ns, k, s);
    if j != k + 1 {
      var i := if j <= k then j else j - 1;
      assert BackAt(size, anchor, pr, ns, i);
      hide Ordered, Narrow, Linked;
      assert ns'[j].lo == ns[i].lo && (j > 0 && i != k + 1 ==> ns'[j - 1].lo == ns[i - 1].lo);
      if i != k + 1 && k + 1 < |ns| {
        LocsDiffer(size, anchor, ns, -1, i, k + 1);
      }
    }
  }

  lemma LinkedAppend(size: int, anchor: int, pr: seq<int>, ns: seq<Range>, r: Range)
    requires Linked(size, anchor, pr, ns) && |ns| > 0
    requires Ordered(ns + [r], -1) && Narrow(ns + [r], size)
    ensures Linked(size, anchor, pr[Loc(size, anchor, r.lo) := Loc(size, anchor, ns[|ns| - 1].lo)], ns + [r])
  {
    var pr', ns' := pr[Loc(size, anchor, r.lo) := Loc(size, anchor, ns[|ns| - 1].lo)], ns + [r];
    forall j | 0 <= j < |ns'|
      ensures BackAt(size, anchor, pr', ns', j)
    {
      if j < |ns| {
        assert BackAt(size, anchor, pr, ns, j);
        LocsDiffer(size, anchor, ns', -1, j, |ns|);
      }
    }
  }

  // ---------------------------------------------------------------- taking out one position

  /** The ranges `ns` without position `s`, which lies in range `k`. */
  ghost function TakenOut(ns: seq<Range>, k: int, s: int): seq<Range>
    requires 0 <= k < |ns|
  {
    var r := ns[k];
    if r.lo == s && r.hi == s then Removed(ns, k)
    else if r.lo == s then ns[k := Range(s + 1, r.hi)]
    else if r.hi == s then ns[k := Range(r.lo, s - 1)]
    else Split(ns, k, s)[k := Range(r.lo, s - 1)]
  }

  lemma TakenOutRanges(ns: seq<Range>, k: int, s: int, size: int)
    requires 0 <= k < |ns| && Ordered(ns, -1) && Narrow(ns, size) && ns[k].lo <= s <= ns[k].hi
    ensures Ordered(TakenOut(ns, k, s), -1) && Narrow(TakenOut(ns, k, s), size)
    ensures Total(TakenOut(ns, k, s)) == Total(ns) - 1
  {
    hide Total, Ordered, Narrow, Split, Removed;
    var r := ns[k];
    if r.lo == s && r.hi == s {
      TotalRemove(ns, k);
      RemovedRanges(ns, k, size);
    } else if r.lo == s {
      TotalSetEnd(ns, k, Range(s + 1, r.hi));
      AdvancedRanges(ns, k, size);
    } else if r.hi == s {
      TotalSetEnd(ns, k, Range(r.lo, s - 1));
      ShrunkRanges(ns, k, s - 1, size);
    } else {
      SplitRanges(ns, k, s, size);
      SplitMembers(ns, k, s);
      SplitNodes(ns, k, s);
      TotalSetEnd(Split(ns, k, s), k, Range(r.lo, s - 1));
      ShrunkRanges(Split(ns, k, s), k, s - 1, size);
    }
  }

  lemma AdvancedRanges(ns: seq<Range>, k: int, size: int)
    requires 0 <= k < |ns| && Ordered(ns, -1) && Narrow(ns, size) && ns[k].lo < ns[k].hi
    ensures Ordered(ns[k := Range(ns[k].lo + 1, ns[k].hi)], -1) && Narrow(ns[k := Range(ns[k].lo + 1, ns[k].hi)], size)
  {
  }

  lemma SplitNodes(ns: seq<Range>, k: int, s: int)
    requires 0 <= k < |ns|
    ensures Split(ns, k, s)[k] == Range(ns[k].lo, s) && Split(ns, k, s)[k + 1] == Range(s + 1, ns[k].hi)
  {
  }

  lemma ShrunkRanges(ns: seq<Range>, k: int, hi: int, size: int)
    requires 0 <= k < |ns| && Ordered(ns, -1) && Narrow(ns, size) && ns[k].lo <= hi <= ns[k].hi
    ensures Ordered(ns[k := Range(ns[k].lo, hi)], -1) && Narrow(ns[k := Range(ns[k].lo, hi)], size)
  {
  }

  lemma RemovedRanges(ns: seq<Range>, k: int, size: int)
    requires 0 <= k < |ns| && Ordered(ns, -1) && Narrow(ns, size)
    ensures Ordered(Removed(ns, k), -1) && Narrow(Removed(ns, k), size)
  {
    var ns' := Removed(ns, k);
    forall i, j | 0 <= i < j < |ns'|
      ensures ns'[i].lo < ns'[j].lo && ns'[i].hi < ns'[j].lo
    {
      assert ns'[i] == ns[if i < k then i else i + 1] && ns'[j] == ns[if j < k then j else j + 1];
    }
    forall i | 0 <= i < |ns'|
      ensures ns'[i].lo <= ns'[i].hi && ns'[i].hi - ns'[0].lo < size
    {
      assert ns'[i] == ns[if i < k then i else i + 1] && ns[0].lo <= ns'[0].lo;
    }
  }

  /** The other ranges do not contain what range `k` contains. */
  lemma ApartFrom(ns: seq<Range>, k: int, s: int)
    requires 0 <= k < |ns| && Ordered(ns, -1) && ns[k].lo <= s <= ns[k].hi
    ensures s !in Members(ns[..k]) && s !in Members(ns[k + 1..])
  {
    hide Members;
    FrontMembers(ns, k, ns[k].lo - 1);
    TailMembers(ns, k + 1, ns[k].hi);
  }

  lemma TakenOutMembers(ns: seq<Range>, k: int, s: int)
    requires 0 <= k < |ns| && Ordered(ns, -1) && ns[k].lo <= s <= ns[k].hi
    ensures Members(TakenOut(ns, k, s)) == Members(ns) - {s}
  {
    hide Members, Covers, Span, Ordered, TakenOut;
    var r := ns[k];
    var mid := TakenOutPart(r, s);
    TakenOutShape(ns, k, s);
    assert ns[k..k + 1] == [r];
    MembersSplice(ns, k, k + 1, mid);
    ApartFrom(ns, k, s);
    MembersOne(r);
    TakenOutPartMembers(r, s);
  }

  ghost function TakenOutPart(r: Range, s: int): seq<Range> {
    if r.lo == s && r.hi == s then []
    else if r.lo == s then [Range(s + 1, r.hi)]
    else if r.hi == s then [Range(r.lo, s - 1)]
    else [Range(r.lo, s - 1)] + [Range(s + 1, r.hi)]
  }

  lemma TakenOutPartMembers(r: Range, s: int)
    requires r.lo <= s <= r.hi
    ensures Members(TakenOutPart(r, s)) == Span(r.lo, r.hi) - {s}
  {
    hide Members, Covers, Span;
    NoMembers();
    MembersOne(Range(s + 1, r.hi));
    MembersOne(Range(r.lo, s - 1));
    MembersConcat([Range(r.lo, s - 1)], [Range(s + 1, r.hi)]);
  }

  lemma NoMembers()
    ensures Members([]) == {}
  {
  }

  lemma TakenOutShape(ns: seq<Range>, k: int, s: int)
    requires 0 <= k < |ns|
    ensures TakenOut(ns, k, s) == ns[..k] + TakenOutPart(ns[k], s) + ns[k + 1..]
  {
    hide Split, Removed;
    var r := ns[k];
    if r.lo == s && r.hi == s {
      RemovedShape(ns, k);
    } else if r.lo == s {
      UpdateShape(ns, k, Range(s + 1, r.hi));
    } else if r.hi == s {
      UpdateShape(ns, k, Range(r.lo, s - 1));
    } else {
      SplitShape(ns, k, s);
      ReplaceMid(ns[..k], Range(r.lo, s), Range(r.lo, s - 1), Range(s + 1, r.hi), ns[k + 1..]);
    }
  }

  lemma UpdateShape(ns: seq<Range>, k: int, r: Range)
    requires 0 <= k < |ns|
    ensures ns[k := r] == ns[..k] + [r] + ns[k + 1..]
  {
  }

  lemma RemovedShape(ns: seq<Range>, k: int)
    requires 0 <= k < |ns|
    ensures Removed(ns, k) == ns[..k] + [] + ns[k + 1..]
  {
  }

  lemma ReplaceMid(x: seq<Range>, a: Range, a': Range, b: Range, y: seq<Range>)
    ensures (x + ([a] + [b]) + y)[|x| := a'] == x + ([a'] + [b]) + y
  {
  }
}
