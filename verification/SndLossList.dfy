/** The sender's loss list: the positions that must be retransmitted. */
module SndLossList {
  import opened SeqNo
  import opened Ring
  import opened LossNodes

  class SndLossList {
    const size: int
    const data1: array<int>
    const data2: array<int>
    const next: array<int>
    var head: int
    var length: int
    var lastInsertPos: int

    ghost var anchor: int       // the position whose slot is 0
    ghost var nodes: seq<Range> // the ranges in list order

    ghost function Arrays(): Cells
      reads data1, data2, next
    {
      Cells(data1[..], data2[..], next[..])
    }

    /** The representation invariant, when range `open` may still overlap its successors and
        the list is entered at slot `first`. */
    ghost predicate Inv(open: int, first: int)
      reads this, data1, data2, next
    {
      && 0 < size && size < SEQ_NO_TH
      && data1 != data2 && data1 != next && data2 != next
      && Ordered(nodes, open) && Narrow(nodes, size)
      && Stored(size, anchor, Arrays(), nodes)
      && first == FirstCell(size, anchor, nodes)
      && length == Total(nodes)
      && (lastInsertPos != -1 ==> Owned(size, anchor, nodes, lastInsertPos))
    }

    ghost predicate Valid()
      reads this, data1, data2, next
    {
      Inv(-1, head)
    }

    /** The abstract value: the set of stream positions on the list. */
    ghost function Contents(): set<int>
      reads this
    {
      Members(nodes)
    }

    /** The span from `a` to `b` and everything on the list fit into the arrays. */
    ghost predicate Fits(a: int, b: int)
      reads this
    {
      b - a < size && forall x :: x in Contents() ==> x - a < size && b - x < size
    }

    constructor (size: int)
      requires 0 < size && size < SEQ_NO_TH
      ensures Valid() && Contents() == {} && this.size == size
      ensures fresh(data1) && fresh(data2) && fresh(next)
    {
      this.size := size;
      data1 := new int[size](_ => -1);
      data2 := new int[size](_ => -1);
      next := new int[size];
      head, length, lastInsertPos := -1, 0, -1;
      anchor, nodes := 0, [];
    }

    // -------------------------------------------------------------- walking the list

    /** What the arrays hold for range `k`. */
    lemma ReadNode(open: int, first: int, k: int)
      requires Inv(open, first) && 0 <= k < |nodes|
      ensures var p := Loc(size, anchor, nodes[k].lo);
              data1[p] == Wrap(nodes[k].lo) && data2[p] == EndCell(nodes[k]) &&
              next[p] == NextCell(size, anchor, nodes, k)
      ensures nodes[0].lo <= nodes[k].lo <= nodes[k].hi < nodes[0].lo + size
      ensures data1.Length == data2.Length == next.Length == size
      ensures first == Loc(size, anchor, nodes[0].lo)
    {
      assert NodeAt(size, anchor, Arrays(), nodes, k);
    }

    lemma SeeNode(k: int)
      requires Valid() && 0 <= k < |nodes|
      ensures var p := Loc(size, anchor, nodes[k].lo);
              0 < size == data1.Length == data2.Length == next.Length &&
              data1[p] == Wrap(nodes[k].lo) && data2[p] == EndCell(nodes[k]) &&
              next[p] == NextCell(size, anchor, nodes, k)
      ensures nodes[0].lo <= nodes[k].lo
    {
      ReadNode(-1, head, k);
    }

    lemma CompareStart(k: int, x: int)
      requires Valid() && 0 <= k < |nodes|
      requires 0 <= x - nodes[0].lo < SEQ_NO_TH
      ensures data1[Loc(size, anchor, nodes[k].lo)] == Wrap(nodes[k].lo)
      ensures SeqCmp(Wrap(nodes[k].lo), Wrap(x)) < 0 <==> nodes[k].lo < x
    {
      ReadNode(-1, head, k);
      SeqCmpIsOrder(nodes[k].lo, x);
    }

    /** Follows `next` from slot `start` to the last range that begins below `x`. */
    method WalkTo(start: int, ghost k0: int, seqno: SeqNum, ghost x: int) returns (i: int, ghost k: int)
      requires Valid()
      requires 0 <= k0 < |nodes| && start == Loc(size, anchor, nodes[k0].lo) && nodes[k0].lo < x
      requires seqno == Wrap(x) && x - nodes[0].lo < SEQ_NO_TH
      ensures 0 <= k < |nodes| && i == Loc(size, anchor, nodes[k].lo)
      ensures nodes[k].lo < x && (k + 1 < |nodes| ==> x <= nodes[k + 1].lo)
    {
      hide Valid, Wrap, SeqCmp;
      i, k := start, k0;
      SeeNode(k);
      if k + 1 < |nodes| { CompareStart(k + 1, x); }
      while next[i] != -1 && SeqCmp(data1[next[i]], seqno) < 0
        invariant 0 <= k < |nodes| && i == Loc(size, anchor, nodes[k].lo) && nodes[k].lo < x
        invariant next[i] == NextCell(size, anchor, nodes, k)
        invariant k + 1 < |nodes| ==> data1[next[i]] == Wrap(nodes[k + 1].lo)
        invariant k + 1 < |nodes| ==> (SeqCmp(Wrap(nodes[k + 1].lo), seqno) < 0 <==> nodes[k + 1].lo < x)
        decreases |nodes| - k
      {
        i, k := next[i], k + 1;
        SeeNode(k);
        if k + 1 < |nodes| { CompareStart(k + 1, x); }
      }
    }

    // -------------------------------------------------------------- insert

    /** Fills the free slot `loc` with the range `r`. */
    method WriteNode(loc: int, seqno1: SeqNum, seqno2: SeqNum, ghost r: Range)
      requires 0 <= loc < data1.Length == data2.Length && data1 != data2
      requires data2[loc] == -1
      requires seqno1 == Wrap(r.lo) && seqno2 == Wrap(r.hi) && 0 <= r.hi - r.lo < SEQ_NO_TH
      modifies data1, data2
      ensures data1[..] == old(data1[..])[loc := Wrap(r.lo)]
      ensures data2[..] == old(data2[..])[loc := EndCell(r)]
    {
      SeqCmpIsOrder(r.lo, r.hi);
      data1[loc] := seqno1;
      if seqno2 != seqno1 {
        data2[loc] := seqno2;
      }
    }

    method InsertIntoEmpty(seqno1: SeqNum, seqno2: SeqNum, ghost a: int, ghost b: int)
      requires Valid() && length == 0
      requires seqno1 == Wrap(a) && seqno2 == Wrap(b) && 0 <= b - a < size
      modifies this, data1, data2, next
      ensures Valid() && nodes == [Range(a, b)]
    {
      hide Ordered, Narrow, Stored, Members, Total, Owned, Inserted, FirstCell;
      FirstFacts(a, b);
      SeqLenCounts(a, b);
      head := 0;
      WriteNode(head, seqno1, seqno2, Range(a, b));
      next[head] := -1;
      lastInsertPos := head;
      length := length + SeqLen(seqno1, seqno2);
      anchor, nodes := a, [Range(a, b)];
    }

    lemma FirstFacts(a: int, b: int)
      requires Valid() && length == 0 && 0 <= b - a < size
      ensures var ns', c := [Range(a, b)], Arrays();
              && Ordered(ns', -1) && Narrow(ns', size)
              && Stored(size, a, Cells(c.d1[0 := Wrap(a)], c.d2[0 := EndCell(Range(a, b))], c.nx[0 := -1]), ns')
              && Total(ns') == b - a + 1 && FirstCell(size, a, ns') == 0 && Owned(size, a, ns', 0)
      ensures data2[0] == -1 && data1.Length == data2.Length == next.Length == size
    {
      TotalPositive(nodes);
      StoredInsert(size, a, Arrays(), [], 0, Range(a, b));
      assert Inserted([], 0, Range(a, b)) == [Range(a, b)];
      assert [Range(a, b)][..0] == [];
      assert [Range(a, b)][0].lo == a;
    }

    /** A new range in front of all others. */
    method InsertBeforeHead(loc: int, seqno1: SeqNum, seqno2: SeqNum, ghost a: int, ghost b: int)
      requires Valid() && |nodes| > 0 && a <= b && a < nodes[0].lo
      requires seqno1 == Wrap(a) && seqno2 == Wrap(b) && Fits(a, b) && loc == Loc(size, anchor, a)
      modifies this, data1, data2, next
      ensures nodes == Inserted(old(nodes), 0, Range(a, b)) && anchor == old(anchor)
      ensures Inv(0, head) && lastInsertPos == loc
    {
      hide Ordered, Narrow, Stored, Members, Total, Owned, Inserted, FirstCell;
      InsertFacts(a, b, 0);
      WriteNode(loc, seqno1, seqno2, Range(a, b));
      next[loc] := head;
      head := loc;
      lastInsertPos := loc;
      length := length + SeqLen(seqno1, seqno2);
      nodes := Inserted(nodes, 0, Range(a, b));
    }

    /** A new range behind range `k`, which is stored in slot `i`. */
    method InsertBehind(i: int, ghost k: int, loc: int, seqno1: SeqNum, seqno2: SeqNum, ghost a: int, ghost b: int)
      requires Valid() && 0 <= k < |nodes| && a <= b && nodes[k].hi < a
      requires k + 1 < |nodes| ==> a < nodes[k + 1].lo
      requires seqno1 == Wrap(a) && seqno2 == Wrap(b) && Fits(a, b)
      requires loc == Loc(size, anchor, a) && i == Loc(size, anchor, nodes[k].lo)
      modifies this, data1, data2, next
      ensures nodes == Inserted(old(nodes), k + 1, Range(a, b)) && anchor == old(anchor)
      ensures Inv(k + 1, head) && lastInsertPos == loc
    {
      hide Ordered, Narrow, Stored, Members, Total, Owned, Inserted, FirstCell;
      InsertFacts(a, b, k + 1);
      ReadNode(-1, head, k);
      lastInsertPos := loc;
      WriteNode(loc, seqno1, seqno2, Range(a, b));
      next[loc] := next[i];
      next[i] := loc;
      length := length + SeqLen(seqno1, seqno2);
      nodes := Inserted(nodes, k + 1, Range(a, b));
    }

    /** The ranges and cells after a new range has become number `k`. */
    lemma InsertFacts(a: int, b: int, k: int)
      requires Valid() && 0 <= k <= |nodes| && |nodes| > 0 && a <= b && Fits(a, b)
      requires k > 0 ==> nodes[k - 1].hi < a
      requires k < |nodes| ==> a < nodes[k].lo
      ensures var ns', c, p := Inserted(nodes, k, Range(a, b)), Arrays(), Loc(size, anchor, a);
              && Ordered(ns', k) && Narrow(ns', size)
              && Stored(size, anchor,
                   Cells(c.d1[p := Wrap(a)], c.d2[p := EndCell(Range(a, b))],
                         if k == 0 then c.nx[p := head]
                         else var i := Loc(size, anchor, nodes[k - 1].lo); c.nx[p := c.nx[i]][i := p]), ns')
              && Total(ns') == length + SeqLen(Wrap(a), Wrap(b))
              && FirstCell(size, anchor, ns') == (if k == 0 then p else head)
              && Owned(size, anchor, ns', p)
      ensures data2[Loc(size, anchor, a)] == -1 && data1.Length == data2.Length == next.Length == size
      ensures b - a < size
    {
      hide Ordered, Narrow, Stored, Members, Total, Owned, Covers;
      FitsNarrow(a, b, k);
      StoredInsert(size, anchor, Arrays(), nodes, k, Range(a, b));
      TotalInsert(nodes, k, Range(a, b));
      SeqLenCounts(a, b);
      ReadNode(-1, head, if k > 0 then k - 1 else 0);
      OwnedAt(size, anchor, Inserted(nodes, k, Range(a, b)), k);
    }

    /** Where a span that fits can go, the ranges stay in order and within the window. */
    lemma FitsNarrow(a: int, b: int, k: int)
      requires Valid() && 0 <= k <= |nodes| && a <= b && Fits(a, b)
      requires k > 0 ==> nodes[k - 1].hi < a
      requires k < |nodes| ==> a < nodes[k].lo
      ensures Narrow(Inserted(nodes, k, Range(a, b)), size)
      ensures Ordered(Inserted(nodes, k, Range(a, b)), k)
    {
      if |nodes| > 0 {
        ListBounds(-1, head);
      }
      InsertedOrdered(nodes, k, Range(a, b));
      InsertedNarrow(nodes, k, Range(a, b), size);
    }

    /** The least and the greatest position on the list are the ends of its ranges. */
    lemma ListBounds(open: int, first: int)
      requires Inv(open, first) && |nodes| > 0
      ensures nodes[0].lo in Contents() && nodes[|nodes| - 1].hi in Contents()
      ensures open == -1 ==> forall x :: x in Contents() ==> nodes[0].lo <= x <= nodes[|nodes| - 1].hi
    {
      assert nodes[0].lo <= nodes[0].hi && nodes[|nodes| - 1].lo <= nodes[|nodes| - 1].hi;
    }

    /** Range `k`, stored in slot `pos`, grows up to `b`. */
    method GrowEnd(pos: int, ghost k: int, grown: int, seqno2: SeqNum, ghost b: int)
      requires Valid() && 0 <= k < |nodes| && nodes[k].hi < b < nodes[0].lo + size
      requires pos == Loc(size, anchor, nodes[k].lo) && seqno2 == Wrap(b) && grown == b - nodes[k].hi
      modifies this, data2
      ensures nodes == old(nodes)[k := Range(old(nodes)[k].lo, b)] && anchor == old(anchor)
      ensures Inv(k, head) && lastInsertPos == old(lastInsertPos)
    {
      hide Ordered, Narrow, Stored, Members, Total, Owned, FirstCell;
      GrowFacts(k, b);
      length := length + grown;
      data2[pos] := seqno2;
      nodes := nodes[k := Range(nodes[k].lo, b)];
    }

    lemma GrowFacts(k: int, b: int)
      requires Valid() && 0 <= k < |nodes| && nodes[k].hi < b < nodes[0].lo + size
      ensures var ns', c, p := nodes[k := Range(nodes[k].lo, b)], Arrays(), Loc(size, anchor, nodes[k].lo);
              && Ordered(ns', k) && Narrow(ns', size)
              && Stored(size, anchor, c.(d2 := c.d2[p := Wrap(b)]), ns')
              && Total(ns') == length + b - nodes[k].hi
              && FirstCell(size, anchor, ns') == head
              && (lastInsertPos != -1 ==> Owned(size, anchor, ns', lastInsertPos))
      ensures data2.Length == size
    {
      var c', ns' := StoredSetEnd(size, anchor, Arrays(), nodes, -1, k, b);
      TotalSetEnd(nodes, k, Range(nodes[k].lo, b));
      KeepOwned(size, anchor, nodes, ns', lastInsertPos);
      ReadNode(-1, head, k);
    }

    // -------------------------------------------------------------- coalescing

    /** The comparisons on two successive ranges of which the first runs up to the second. */
    static lemma RunsInto(p: Range, q: Range, size: int)
      requires p.lo < p.hi && p.lo < q.lo <= q.hi && q.lo <= p.hi + 1
      requires p.hi - p.lo < size < SEQ_NO_TH && q.hi - p.lo < size
      ensures SeqCmp(Wrap(q.hi), Wrap(p.hi)) > 0 <==> q.hi > p.hi
      ensures SeqCmp(Wrap(p.hi), Wrap(q.lo)) >= 0 <==> p.hi >= q.lo
      ensures q.lo <= p.hi ==> SeqLen(Wrap(q.lo), Wrap(p.hi)) == p.hi - q.lo + 1
      ensures SeqLen(Wrap(q.lo), Wrap(q.hi)) == q.hi - q.lo + 1
      ensures Wrap(q.lo) == IncSeq(Wrap(p.hi)) <==> q.lo == p.hi + 1
    {
      SeqCmpIsOrder(q.hi, p.hi);
      SeqCmpIsOrder(p.hi, q.lo);
      if q.lo <= p.hi { SeqLenCounts(q.lo, p.hi); }
      SeqLenCounts(q.lo, q.hi);
      IncWraps(p.hi);
      SeqCmpIsOrder(q.lo, p.hi + 1);
    }

    /** Extends the end of range `p` (slot `loc`) over its successor `q` (slot `i`), and stops
        counting the positions they share twice. */
    method TakeOver(loc: int, i: int, ghost p: Range, ghost q: Range)
      requires data1 != data2 && data1.Length == data2.Length == size
      requires 0 <= loc < size && 0 <= i < size && i != loc
      requires p.lo < p.hi && p.lo < q.lo <= q.hi && q.lo <= p.hi + 1
      requires p.hi - p.lo < size < SEQ_NO_TH && q.hi - p.lo < size
      requires data2[loc] == EndCell(p) && data1[i] == Wrap(q.lo) && data2[i] == EndCell(q)
      modifies this`length, data2
      ensures length == old(length) - (q.hi - q.lo + 1) + (if p.hi < q.hi then q.hi - p.hi else 0)
      ensures data2[..] == old(data2[..])[loc := EndCell(Range(p.lo, if p.hi < q.hi then q.hi else p.hi))]
    {
      RunsInto(p, q, size);
      if data2[i] != -1 {
        if SeqCmp(data2[i], data2[loc]) > 0 {
          if SeqCmp(data2[loc], data1[i]) >= 0 {
            length := length - SeqLen(data1[i], data2[loc]);
          }
          data2[loc] := data2[i];
        } else {
          length := length - SeqLen(data1[i], data2[i]);
        }
      } else {
        if data1[i] == IncSeq(data2[loc]) {
          data2[loc] := data1[i];
        } else {
          length := length - 1;
        }
      }
    }

    /** The array updates of a merge: slot `loc` takes the successor in slot `i` over, which
        becomes empty. */
    method MergeCells(loc: int, i: int, ghost p: Range, ghost q: Range)
      requires data1 != data2 && data1 != next && data2 != next
      requires data1.Length == data2.Length == next.Length == size
      requires 0 <= loc < size && 0 <= i < size && i != loc
      requires p.lo < p.hi && p.lo < q.lo <= q.hi && q.lo <= p.hi + 1
      requires p.hi - p.lo < size < SEQ_NO_TH && q.hi - p.lo < size
      requires data2[loc] == EndCell(p) && data1[i] == Wrap(q.lo) && data2[i] == EndCell(q)
      modifies this`length, data1, data2, next
      ensures length == old(length) - (q.hi - q.lo + 1) + (if p.hi < q.hi then q.hi - p.hi else 0)
      ensures Arrays() == old(var c := Arrays();
                Cells(c.d1[i := -1], c.d2[loc := EndCell(Range(p.lo, if p.hi < q.hi then q.hi else p.hi))][i := -1],
                      c.nx[loc := c.nx[i]]))
    {
      TakeOver(loc, i, p, q);
      data1[i] := -1;
      data2[i] := -1;
      next[loc] := next[i];
    }

    /** The ranges and cells after the merge, before any array has been touched. */
    lemma AbsorbFacts(k: int) returns (ns': seq<Range>, e: int)
      requires Inv(k, head) && 0 <= k < |nodes| - 1
      requires nodes[k].lo < nodes[k].hi && nodes[k + 1].lo <= nodes[k].hi + 1
      ensures e == if nodes[k].hi < nodes[k + 1].hi then nodes[k + 1].hi else nodes[k].hi
      ensures |ns'| == |nodes| - 1 && ns'[k] == Range(nodes[k].lo, e)
      ensures Ordered(ns', k) && Narrow(ns', size)
      ensures var p, q, c := Loc(size, anchor, nodes[k].lo), Loc(size, anchor, nodes[k + 1].lo), Arrays();
              p != q && Owned(size, anchor, ns', p) &&
              Stored(size, anchor, Cells(c.d1[q := -1], c.d2[p := EndCell(ns'[k])][q := -1], c.nx[p := c.nx[q]]), ns')
      ensures FirstCell(size, anchor, ns') == head
      ensures Members(ns') == Members(nodes)
      ensures Total(ns') == length - (nodes[k + 1].hi - nodes[k + 1].lo + 1) + (e - nodes[k].hi)
      ensures nodes[k].lo < nodes[k + 1].lo <= nodes[k + 1].hi
    {
      ns' := Merged(nodes, k);
      e := ns'[k].hi;
      MergedOrdered(nodes, k, size);
      StoredMerge(size, anchor, Arrays(), nodes, k);
      MembersMerge(nodes, k, Merged(nodes, k)[k].hi);
      MergedTotal(nodes, k);
      LocsDiffer(size, anchor, nodes, k, k, k + 1);
    }

    /** Range `k` (slot `loc`) swallows its successor (slot `i`), which starts no later than
        one past the end of range `k`. */
    method Absorb(loc: int, i: int, ghost k: int)
      requires Inv(k, head) && 0 <= k < |nodes| - 1
      requires loc == Loc(size, anchor, nodes[k].lo) == lastInsertPos && i == Loc(size, anchor, nodes[k + 1].lo)
      requires nodes[k].lo < nodes[k].hi && nodes[k + 1].lo <= nodes[k].hi + 1
      modifies this, data1, data2, next
      ensures |nodes| == |old(nodes)| - 1 && nodes[k].lo == old(nodes[k].lo) && anchor == old(anchor)
      ensures Inv(k, head) && lastInsertPos == old(lastInsertPos) && Contents() == old(Contents())
    {
      hide Ordered, Narrow, Stored, Members, Total, Owned;
      ReadNode(k, head, k);
      ReadNode(k, head, k + 1);
      ghost var ns', e := AbsorbFacts(k);
      MergeCells(loc, i, nodes[k], nodes[k + 1]);
      nodes := ns';
    }

    /** Whether the successor of range `k` starts no later than one past its end. */
    lemma OverlapTest(k: int)
      requires Inv(k, head) && 0 <= k < |nodes| - 1
      ensures SeqCmp(Wrap(nodes[k + 1].lo), IncSeq(Wrap(nodes[k].hi))) <= 0 <==> nodes[k + 1].lo <= nodes[k].hi + 1
      ensures nodes[k].lo <= nodes[k].hi
    {
      assert nodes[0].lo <= nodes[k].lo <= nodes[k].hi < nodes[0].lo + size;
      assert nodes[0].lo <= nodes[k + 1].lo <= nodes[k + 1].hi < nodes[0].lo + size;
      IncWraps(nodes[k].hi);
      SeqCmpIsOrder(nodes[k + 1].lo, nodes[k].hi + 1);
    }

    /** What the arrays hold for range `j` while range `k` may run into its successors. */
    lemma SeeOpen(k: int, j: int)
      requires Inv(k, head) && 0 <= j < |nodes|
      ensures 0 < size == data1.Length == data2.Length == next.Length
      ensures var p := Loc(size, anchor, nodes[j].lo);
              data1[p] == Wrap(nodes[j].lo) && data2[p] == EndCell(nodes[j]) &&
              next[p] == NextCell(size, anchor, nodes, j)
    {
      hide Ordered, Narrow, Stored;
      ReadNode(k, head, j);
    }

    lemma EndCellSays(r: Range)
      ensures EndCell(r) == -1 <==> r.lo == r.hi
      ensures EndCell(r) != -1 ==> EndCell(r) == Wrap(r.hi)
    {
    }

    /** Range `k` ends before its successor, or holds one number. */
    lemma Closes(k: int)
      requires Inv(k, head) && 0 <= k < |nodes|
      requires k + 1 < |nodes| ==> nodes[k].hi < nodes[k + 1].lo || nodes[k].lo == nodes[k].hi
      ensures Valid()
    {
      ClosedOrdered(nodes, k);
    }

    /** Restores the order behind range `k` by absorbing every range it runs into. */
    method Coalesce(loc: int, ghost k: int)
      requires Inv(k, head) && 0 <= k < |nodes|
      requires loc == Loc(size, anchor, nodes[k].lo) == lastInsertPos
      modifies this, data1, data2, next
      ensures Valid() && Contents() == old(Contents()) && |nodes| > 0
    {
      hide Inv, Valid, Contents, EndCell, Wrap, SeqCmp, IncSeq;
      SeeOpen(k, k);
      while next[loc] != -1 && data2[loc] != -1
        invariant Inv(k, head) && 0 <= k < |nodes| && 0 <= loc < size == data1.Length == data2.Length == next.Length
        invariant loc == Loc(size, anchor, nodes[k].lo) == lastInsertPos
        invariant data2[loc] == EndCell(nodes[k]) && next[loc] == NextCell(size, anchor, nodes, k)
        invariant Contents() == old(Contents())
        decreases |nodes|
      {
        var i := next[loc];
        EndCellSays(nodes[k]);
        OverlapTest(k);
        SeeOpen(k, k + 1);
        if SeqCmp(data1[i], IncSeq(data2[loc])) <= 0 {
          Absorb(loc, i, k);
          SeeOpen(k, k);
        } else {
          break;
        }
      }
      EndCellSays(nodes[k]);
      Closes(k);
    }

    // -------------------------------------------------------------- the public operations

    /** `length` counts the members. */
    lemma LengthIsSize()
      requires Valid()
      ensures length == |Contents()|
      ensures length == 0 <==> nodes == []
    {
      TotalIsSize(nodes);
      TotalPositive(nodes);
      if nodes == [] { assert Total(nodes) == 0; }
    }

    lemma FitsBounds(a: int, b: int, k: int)
      requires Valid() && 0 <= k < |nodes| && a <= b && Fits(a, b)
      ensures -size < a - nodes[k].lo < size && -size < b - nodes[k].hi < size && b - nodes[k].lo < size
      ensures -size < a - nodes[k].hi
      ensures nodes[0].lo <= nodes[k].lo <= nodes[k].hi && b - nodes[0].lo < size && b - a < size
    {
      assert nodes[0].lo <= nodes[0].hi && nodes[k].lo <= nodes[k].hi;
      assert nodes[0].lo in Contents() && nodes[k].lo in Contents() && nodes[k].hi in Contents();
    }

    /** Range `k` starts at `a`: it grows to `b` unless it already reaches that far. */
    method InsertAtStart(loc: int, ghost k: int, seqno1: SeqNum, seqno2: SeqNum, ghost a: int, ghost b: int)
      returns (grew: bool)
      requires Valid() && 0 <= k < |nodes| && nodes[k].lo == a && a <= b && Fits(a, b)
      requires seqno1 == Wrap(a) && seqno2 == Wrap(b) && loc == Loc(size, anchor, a)
      modifies this, data2
      ensures Inv(k, head) && anchor == old(anchor) && lastInsertPos == loc
      ensures if grew then nodes == old(nodes)[k := Range(a, b)] && old(nodes)[k].hi < b
              else Valid() && nodes == old(nodes) && b <= nodes[k].hi
    {
      hide Ordered, Narrow, Stored, Members, Total, Covers;
      ReadNode(-1, head, k);
      FitsBounds(a, b, k);
      AlsoOpen(k);
      OwnedAt(size, anchor, nodes, k);
      SeqCmpIsOrder(a, b);
      SeqCmpIsOrder(b, nodes[k].hi);
      lastInsertPos := loc;
      grew := false;
      if data2[loc] == -1 {
        if seqno2 != seqno1 {
          SeqLenCounts(a, b);
          GrowEnd(loc, k, SeqLen(seqno1, seqno2) - 1, seqno2, b);
          grew := true;
        }
      } else if SeqCmp(seqno2, data2[loc]) > 0 {
        SeqLenCounts(nodes[k].hi, b);
        GrowEnd(loc, k, SeqLen(data2[loc], seqno2) - 1, seqno2, b);
        grew := true;
      }
    }

    lemma AlsoOpen(k: int)
      requires Ordered(nodes, -1)
      ensures Ordered(nodes, k)
    {
    }

    /** No range starts at `a`, which lies behind the head: it becomes a new range, or extends
        the range before it when that one reaches `a`. */
    method InsertBetween(pos: int, seqno1: SeqNum, seqno2: SeqNum, ghost a: int, ghost b: int)
      returns (grew: bool, loc: int, ghost k: int)
      requires Valid() && |nodes| > 0 && nodes[0].lo < a <= b && Fits(a, b)
      requires forall j :: 0 <= j < |nodes| ==> nodes[j].lo != a
      requires seqno1 == Wrap(a) && seqno2 == Wrap(b) && pos == Loc(size, anchor, a)
      modifies this, data1, data2, next
      ensures 0 <= k < |nodes| && Inv(k, head) && loc == Loc(size, anchor, nodes[k].lo) == lastInsertPos
      ensures !grew ==> Valid()
      ensures Contents() == old(Contents()) + Span(a, b)
    {
      hide Ordered, Narrow, Stored, Members, Total, Covers;
      FitsBounds(a, b, 0);
      ghost var hint := 0;
      if lastInsertPos != -1 {
        hint := HintIsNode();
        CompareStart(hint, a);
      }
      var i: int;
      if lastInsertPos != -1 && SeqCmp(data1[lastInsertPos], seqno1) < 0 {
        i, k := lastInsertPos, hint;
      } else {
        i, k := head, 0;
      }
      i, k := WalkTo(i, k, seqno1, a);
      ReadNode(-1, head, k);
      FitsBounds(a, b, k);
      SeqCmpIsOrder(nodes[k].hi, a);
      loc, grew := pos, true;
      if data2[i] == -1 || SeqCmp(data2[i], seqno1) < 0 {
        MembersInsert(nodes, k + 1, Range(a, b));
        InsertBehind(i, k, loc, seqno1, seqno2, a, b);
        k := k + 1;
      } else {
        loc := i;
        grew := ReachFurther(i, k, seqno2, a, b);
      }
    }

    /** The span from `a` to `b` starts inside range `k`, which grows if the span ends behind it. */
    method ReachFurther(i: int, ghost k: int, seqno2: SeqNum, ghost a: int, ghost b: int) returns (grew: bool)
      requires Valid() && 0 <= k < |nodes| && i == Loc(size, anchor, nodes[k].lo)
      requires nodes[k].lo < a <= nodes[k].hi && a <= b && Fits(a, b) && seqno2 == Wrap(b)
      requires data2[i] == Wrap(nodes[k].hi)
      modifies this, data2
      ensures 0 <= k < |nodes| && Inv(k, head) && i == Loc(size, anchor, nodes[k].lo) == lastInsertPos
      ensures !grew ==> Valid()
      ensures Contents() == old(Contents()) + Span(a, b)
    {
      hide Ordered, Narrow, Stored, Members, Total, Covers;
      ReadNode(-1, head, k);
      FitsBounds(a, b, k);
      SeqCmpIsOrder(nodes[k].hi, b);
      CoveredPart(k, a, b);
      lastInsertPos := i;
      OwnedAt(size, anchor, nodes, k);
      if SeqCmp(data2[i], seqno2) < 0 {
        SeqLenCounts(nodes[k].hi, b);
        MembersSetEnd(nodes, k, b);
        GrowEnd(i, k, SeqLen(data2[i], seqno2) - 1, seqno2, b);
        grew := true;
      } else {
        AlsoOpen(k);
        grew := false;
      }
    }

    /** The slot of the last insertion, while remembered, holds a range. */
    lemma HintIsNode() returns (k: int)
      requires Valid() && lastInsertPos != -1
      ensures 0 <= k < |nodes| && lastInsertPos == Loc(size, anchor, nodes[k].lo)
      ensures 0 <= lastInsertPos < data1.Length && data1[lastInsertPos] == Wrap(nodes[k].lo)
    {
      k :| 0 <= k < |nodes| && Loc(size, anchor, nodes[k].lo) == lastInsertPos;
      ReadNode(-1, head, k);
    }

    /** The part of a..b that range `k` covers already adds nothing. */
    lemma CoveredPart(k: int, a: int, b: int)
      requires Valid() && 0 <= k < |nodes| && nodes[k].lo <= a <= nodes[k].hi
      ensures b <= nodes[k].hi ==> Contents() == Contents() + Span(a, b)
      ensures b > nodes[k].hi ==> Contents() + Span(nodes[k].lo, b) == Contents() + Span(a, b)
    {
      assert forall x :: nodes[k].lo <= x <= nodes[k].hi ==> x in Contents();
    }

    /** The slot `offset` positions away from the head. */
    method SlotAt(offset: int) returns (loc: int)
      requires Valid() && |nodes| > 0
      ensures loc == Loc(size, anchor, nodes[0].lo + offset) && 0 <= loc < size == data1.Length
    {
      LocStep(size, anchor, nodes[0].lo, offset);
      loc := (head + offset + size) % size;
    }

    /** `Insert` on a list that is not empty, up to coalescing: range `k` in slot `loc` now
        ends at or behind `b`. */
    method InsertAnywhere(seqno1: SeqNum, seqno2: SeqNum, ghost a: int, ghost b: int)
      returns (grew: bool, loc: int, ghost k: int)
      requires Valid() && |nodes| > 0 && a <= b && Fits(a, b)
      requires seqno1 == Wrap(a) && seqno2 == Wrap(b)
      modifies this, data1, data2, next
      ensures 0 <= k < |nodes| && Inv(k, head) && loc == Loc(size, anchor, nodes[k].lo) == lastInsertPos
      ensures !grew ==> Valid()
      ensures Contents() == old(Contents()) + Span(a, b)
    {
      hide Ordered, Narrow, Stored, Members, Total, Covers;
      FitsBounds(a, b, 0);
      ReadNode(-1, head, 0);
      SeqOffIsDistance(nodes[0].lo, a);
      var offset := SeqOff(data1[head], seqno1);
      loc := SlotAt(offset);
      ghost var starts := StartsAt(a);
      grew, k := true, 0;
      if offset < 0 {
        MembersInsert(nodes, 0, Range(a, b));
        InsertBeforeHead(loc, seqno1, seqno2, a, b);
      } else if offset > 0 && seqno1 != data1[loc] {
        grew, loc, k := InsertBetween(loc, seqno1, seqno2, a, b);
      } else {
        // the range at `loc`, which is the head when offset is 0, starts at seqno1
        k := if offset == 0 then 0 else starts;
        StartCovers(k, b);
        grew := InsertAtStart(loc, k, seqno1, seqno2, a, b);
      }
    }

    /** Adds a..b to the list; `added` is the number of positions that were not on it yet. */
    method Insert(seqno1: SeqNum, seqno2: SeqNum, ghost a: int, ghost b: int) returns (added: int)
      requires Valid() && a <= b && Fits(a, b)
      requires seqno1 == Wrap(a) && seqno2 == Wrap(b)
      modifies this, data1, data2, next
      ensures Valid()
      ensures Contents() == old(Contents()) + Span(a, b)
      ensures added == |Contents()| - |old(Contents())|
    {
      hide Ordered, Narrow, Stored, Members, Total, Covers, FirstCell, Loc, Owned;
      LengthIsSize();
      if length == 0 {
        InsertIntoEmpty(seqno1, seqno2, a, b);
        MembersOne(Range(a, b));
        LengthIsSize();
        assert old(Contents()) == {} by { NoMembers(); }
        return length;
      }
      var origlen := length;
      ghost var before := Contents();
      var grew, loc, k := InsertAnywhere(seqno1, seqno2, a, b);
      if !grew {
        LengthIsSize();
        return length - origlen;
      }
      Coalesce(loc, k);
      LengthIsSize();
      return length - origlen;
    }

    lemma NoMembers()
      ensures Members([]) == {}
    {
    }

    /** A range starts at `a` exactly when the slot of `a` says so. */
    lemma StartsAt(a: int) returns (k: int)
      requires Valid() && |nodes| > 0 && -SEQ_NO_TH < a - nodes[0].lo < SEQ_NO_TH
      ensures data1.Length == size
      ensures data1[Loc(size, anchor, a)] == Wrap(a) ==> 0 <= k < |nodes| && nodes[k].lo == a
      ensures data1[Loc(size, anchor, a)] != Wrap(a) ==> forall j :: 0 <= j < |nodes| ==> nodes[j].lo != a
    {
      ReadNode(-1, head, 0);
      StartCell(size, anchor, Arrays(), nodes, -1, a);
      k := 0;
      if data1[Loc(size, anchor, a)] == Wrap(a) {
        k :| 0 <= k < |nodes| && nodes[k].lo == a;
      }
    }

    lemma StartCovers(k: int, b: int)
      requires Valid() && 0 <= k < |nodes| && nodes[k].lo <= b
      ensures b <= nodes[k].hi ==> Contents() == Contents() + Span(nodes[k].lo, b)
      ensures b > nodes[k].hi ==> Members(nodes[k := Range(nodes[k].lo, b)]) == Contents() + Span(nodes[k].lo, b)
    {
      assert nodes[k].lo <= nodes[k].hi;
      assert forall x :: nodes[k].lo <= x <= nodes[k].hi ==> x in Contents();
      if b > nodes[k].hi { MembersSetEnd(nodes, k, b); }
    }

    // -------------------------------------------------------------- taking positions off

    /** The ranges and cells without the least position. */
    lemma DropFirstFacts()
      requires Valid() && |nodes| > 0
      ensures var ns', c, p, q, r := WithoutFirst(nodes), Arrays(), head, Loc(size, anchor, nodes[0].lo + 1), nodes[0];
              && Ordered(ns', -1) && Narrow(ns', size) && Total(ns') == length - 1
              && (if r.lo == r.hi
                  then Stored(size, anchor, Cells(c.d1[p := -1], c.d2, c.nx), ns')
                       && FirstCell(size, anchor, ns') == c.nx[p]
                  else Stored(size, anchor,
                         Cells(c.d1[q := Wrap(r.lo + 1)][p := -1], c.d2[q := EndCell(Range(r.lo + 1, r.hi))][p := -1],
                               c.nx[q := c.nx[p]]), ns')
                       && FirstCell(size, anchor, ns') == q && p != q && c.d2[q] == -1)
              && (lastInsertPos != -1 && lastInsertPos != head ==> Owned(size, anchor, ns', lastInsertPos))
              && Members(ns') == Contents() - {r.lo}
      ensures nodes[0].lo in Contents() && forall x :: x in Contents() ==> nodes[0].lo <= x
    {
      hide Ordered, Narrow, Members, Total, Covers, Owned;
      WithoutFirstRanges(nodes, size);
      WithoutFirstMembers(nodes);
      ReadNode(-1, head, 0);
      DropFirstOwned();
      var r := nodes[0];
      if r.lo == r.hi {
        StoredRemove(size, anchor, Arrays(), nodes, -1, 0);
        assert Removed(nodes, 0) == WithoutFirst(nodes);
        assert Arrays().d2[head := -1] == Arrays().d2;
      } else {
        StoredAdvance(size, anchor, Arrays(), nodes, 0);
        NextSlotFree(size, anchor, Arrays(), nodes, 0, r.lo + 1);
      }
    }

    lemma DropFirstOwned()
      requires Valid() && |nodes| > 0
      ensures lastInsertPos != -1 && lastInsertPos != head ==> Owned(size, anchor, WithoutFirst(nodes), lastInsertPos)
    {
      if lastInsertPos != -1 && lastInsertPos != head {
        var k :| 0 <= k < |nodes| && Loc(size, anchor, nodes[k].lo) == lastInsertPos;
        hide Valid;
        var ns' := WithoutFirst(nodes);
        var k' := if |ns'| == |nodes| then k else k - 1;
        assert ns'[k'] == nodes[k];
      }
    }

    /** The slot behind slot `loc`. */
    method SlotBehind(loc: int, ghost x: int) returns (r: int)
      requires 0 < size && loc == Loc(size, anchor, x)
      ensures r == Loc(size, anchor, x + 1) && 0 <= r < size
    {
      LocStep(size, anchor, x, 1);
      r := (loc + 1) % size;
    }

    /** Slot `loc` takes over range `r` from slot `p`, without its first position. */
    method MoveNode(p: int, loc: int, ghost r: Range)
      requires data1 != data2 && data1 != next && data2 != next
      requires data1.Length == data2.Length == next.Length == size
      requires 0 <= p < size && 0 <= loc < size && p != loc
      requires 0 < r.hi - r.lo < SEQ_NO_TH
      requires data1[p] == Wrap(r.lo) && data2[p] == Wrap(r.hi) && data2[loc] == -1
      modifies data1, data2, next
      ensures Arrays() == old(var c := Arrays();
                Cells(c.d1[loc := Wrap(r.lo + 1)], c.d2[loc := EndCell(Range(r.lo + 1, r.hi))][p := -1],
                      c.nx[loc := c.nx[p]]))
    {
      IncWraps(r.lo);
      SeqCmpIsOrder(r.hi, r.lo + 1);
      data1[loc] := IncSeq(data1[p]);
      if SeqCmp(data2[p], IncSeq(data1[p])) > 0 {
        data2[loc] := data2[p];
      }
      data2[p] := -1;
      next[loc] := next[p];
    }

    /** The least position leaves the list. */
    method DropFirst(seqno: SeqNum)
      requires Valid() && |nodes| > 0 && seqno == Wrap(nodes[0].lo)
      modifies this, data1, data2, next
      ensures Valid() && nodes == WithoutFirst(old(nodes)) && anchor == old(anchor)
      ensures Contents() == old(Contents()) - {old(nodes)[0].lo}
    {
      hide Ordered, Narrow, Stored, Members, Total, Covers, Owned, FirstCell, WithoutFirst;
      DropFirstFacts();
      ReadNode(-1, head, 0);
      var loc := SlotBehind(head, nodes[0].lo);
      if data2[head] == -1 {
        loc := next[head];
      } else {
        MoveNode(head, loc, nodes[0]);
      }
      data1[head] := -1;
      if lastInsertPos == head {
        lastInsertPos := -1;
      }
      head := loc;
      length := length - 1;
      nodes := WithoutFirst(nodes);
    }

    /** Takes the least position off the list and returns its sequence number, -1 if there is
        none. */
    method GetLostSeq() returns (seqno: int)
      requires Valid()
      modifies this, data1, data2, next
      ensures Valid()
      ensures old(Contents()) == {} ==> seqno == -1 && Contents() == {}
      ensures old(Contents()) != {} ==>
                exists x :: x in old(Contents()) && seqno == Wrap(x) && Contents() == old(Contents()) - {x} &&
                            forall y :: y in old(Contents()) ==> x <= y
    {
      hide Ordered, Narrow, Stored, Members, Total, Covers, Owned, FirstCell, WithoutFirst;
      LengthIsSize();
      if length == 0 {
        return -1;
      }
      ReadNode(-1, head, 0);
      DropFirstFacts();
      seqno := data1[head];
      DropFirst(seqno);
    }

    lemma SplitFacts(k: int, s: int)
      requires Valid() && 0 <= k < |nodes| && nodes[k].lo <= s < nodes[k].hi
      ensures var ns', c := Split(nodes, k, s), Arrays();
              && Ordered(ns', -1) && Narrow(ns', size) && Total(ns') == length
              && Stored(size, anchor, SplitCells(size, anchor, c, nodes, k, s), ns')
              && FirstCell(size, anchor, ns') == head
              && Members(ns') == Contents()
              && (lastInsertPos != -1 ==> Owned(size, anchor, ns', lastInsertPos))
      ensures data2[Loc(size, anchor, s + 1)] == -1
      ensures Loc(size, anchor, s + 1) != Loc(size, anchor, nodes[k].lo)
      ensures Split(nodes, k, s)[k + 1].lo == s + 1 && Split(nodes, k, s)[k] == Range(nodes[k].lo, s)
    {
      hide Ordered, Narrow, Stored, Members, Total, Covers, Owned;
      ReadNode(-1, head, k);
      SplitRanges(nodes, k, s, size);
      SplitMembers(nodes, k, s);
      StoredSplit(size, anchor, Arrays(), nodes, k, s);
      SplitOwned(k, s);
    }

    lemma SplitOwned(k: int, s: int)
      requires 0 < size && 0 <= k < |nodes| && (lastInsertPos != -1 ==> Owned(size, anchor, nodes, lastInsertPos))
      ensures lastInsertPos != -1 ==> Owned(size, anchor, Split(nodes, k, s), lastInsertPos)
    {
      if lastInsertPos != -1 {
        var j :| 0 <= j < |nodes| && Loc(size, anchor, nodes[j].lo) == lastInsertPos;
        assert Split(nodes, k, s)[if j <= k then j else j + 1].lo == nodes[j].lo;
      }
    }

    /** Cuts range `k` (slot `i`) behind `s`; the part behind goes to slot `loc`. */
    method SplitNode(i: int, ghost k: int, loc: int, seqno: SeqNum, cut: int, ghost s: int)
      requires Valid() && 0 <= k < |nodes| && nodes[k].lo <= s < nodes[k].hi
      requires i == Loc(size, anchor, nodes[k].lo) && loc == Loc(size, anchor, s + 1)
      requires seqno == Wrap(s) && cut == EndCell(Range(nodes[k].lo, s))
      modifies this, data1, data2, next
      ensures Inv(-1, old(head)) && nodes == Split(old(nodes), k, s)
      ensures anchor == old(anchor) && head == loc && Contents() == old(Contents())
    {
      hide Ordered, Narrow, Stored, Members, Total, Covers, Owned, FirstCell, Split;
      SplitFacts(k, s);
      ReadNode(-1, head, k);
      SplitCellsIn(i, loc, seqno, cut, nodes[k], s);
      head := loc;
      nodes := Split(nodes, k, s);
    }

    /** The array updates of a split. */
    method SplitCellsIn(i: int, loc: int, seqno: SeqNum, cut: int, ghost r: Range, ghost s: int)
      requires data1 != data2 && data1 != next && data2 != next
      requires data1.Length == data2.Length == next.Length == size
      requires 0 <= i < size && 0 <= loc < size && i != loc
      requires r.lo <= s < r.hi && r.hi - r.lo < SEQ_NO_TH
      requires seqno == Wrap(s) && data2[i] == Wrap(r.hi) && data2[loc] == -1
      modifies data1, data2, next
      ensures Arrays() == old(var c := Arrays();
                Cells(c.d1[loc := Wrap(s + 1)], c.d2[loc := EndCell(Range(s + 1, r.hi))][i := cut],
                      c.nx[loc := c.nx[i]][i := loc]))
    {
      IncWraps(s);
      SeqCmpIsOrder(r.hi, s + 1);
      data1[loc] := IncSeq(seqno);
      if SeqCmp(data2[i], data1[loc]) > 0 {
        data2[loc] := data2[i];
      }
      data2[i] := cut;
      next[loc] := next[i];
      next[i] := loc;
    }

    lemma DropRangeFacts(h: int)
      requires Inv(-1, h) && |nodes| > 0
      ensures var ns', c := nodes[1..], Arrays();
              && Ordered(ns', -1) && Narrow(ns', size)
              && Total(ns') == length - (nodes[0].hi - nodes[0].lo + 1)
              && Stored(size, anchor, Cells(c.d1[h := -1], c.d2[h := -1], c.nx), ns')
              && FirstCell(size, anchor, ns') == c.nx[h]
              && (lastInsertPos != -1 && lastInsertPos != h ==> Owned(size, anchor, ns', lastInsertPos))
      ensures SeqLen(Wrap(nodes[0].lo), Wrap(nodes[0].hi)) == nodes[0].hi - nodes[0].lo + 1
    {
      hide Ordered, Narrow, Stored, Total, Owned;
      ReadNode(-1, h, 0);
      SeqLenCounts(nodes[0].lo, nodes[0].hi);
      TailRanges(nodes, 1, size);
      TailTotal(nodes);
      StoredRemove(size, anchor, Arrays(), nodes, -1, 0);
      assert Removed(nodes, 0) == nodes[1..];
      if lastInsertPos != -1 && lastInsertPos != h {
        TailOwned(size, anchor, nodes, lastInsertPos);
      }
    }

    /** The head slot belongs to no later range. */
    lemma HeadAlone(h: int, t: int)
      requires Inv(-1, h) && 0 < t <= |nodes|
      ensures h != if t == |nodes| then -1 else Loc(size, anchor, nodes[t].lo)
    {
      if t < |nodes| { LocsDiffer(size, anchor, nodes, -1, 0, t); }
    }

    /** Empties slot `h`, which holds range `r`. */
    method EraseRange(h: int, ghost r: Range)
      requires data1 != data2 && data1 != next && data2 != next
      requires data1.Length == data2.Length == size && 0 <= h < size
      requires 0 <= r.hi - r.lo < SEQ_NO_TH && data1[h] == Wrap(r.lo) && data2[h] == EndCell(r)
      modifies this`length, data1, data2
      ensures length == old(length) - (r.hi - r.lo + 1)
      ensures Arrays() == old(var c := Arrays(); Cells(c.d1[h := -1], c.d2[h := -1], c.nx))
    {
      SeqLenCounts(r.lo, r.hi);
      if data2[h] != -1 {
        length := length - SeqLen(data1[h], data2[h]);
        data2[h] := -1;
      } else {
        length := length - 1;
        assert data2[..] == old(data2[..])[h := -1];
      }
      data1[h] := -1;
    }

    /** Removes whole ranges from slot `h` on, up to the new head, which holds range `t`. */
    method DropRanges(first: int, ghost t: int)
      requires Inv(-1, first) && 0 <= t <= |nodes|
      requires head == if t == |nodes| then -1 else Loc(size, anchor, nodes[t].lo)
      modifies this, data1, data2
      ensures Valid() && nodes == old(nodes)[t..] && anchor == old(anchor)
    {
      hide Ordered, Narrow, Stored, Members, Total, Covers, Owned;
      var h := first;
      ghost var t' := t;
      while h != head
        invariant Inv(-1, h) && 0 <= t' <= |nodes| && t' <= t && head == old(head)
        invariant nodes == old(nodes)[t - t'..] && anchor == old(anchor)
        invariant head == if t' == |nodes| then -1 else Loc(size, anchor, nodes[t'].lo)
        decreases |nodes|
      {
        DropRangeFacts(h);
        ReadNode(-1, h, 0);
        EraseRange(h, nodes[0]);
        if lastInsertPos == h {
          lastInsertPos := -1;
        }
        h := next[h];
        nodes, t' := nodes[1..], t' - 1;
      }
      if t' > 0 { HeadAlone(h, t'); }
    }

    function GetLossLength(): (n: int)
      requires Valid()
      reads this, data1, data2, next
      ensures n == |Contents()|
    {
      LengthIsSize();
      length
    }

    /** The least position on the list. */
    ghost function First(): int
      requires Valid() && Contents() != {}
      reads this, data1, data2, next
      ensures First() in Contents() && forall x :: x in Contents() ==> First() <= x
    {
      LengthIsSize();
      ListBounds(-1, head);
      nodes[0].lo
    }

    lemma NextBehind(k: int)
      requires Valid() && 0 <= k < |nodes| - 1
      ensures nodes[k].hi < nodes[k + 1].lo
    {
    }

    /** Cuts the list so that range `t` is the first one behind `s`, and makes it the head. */
    method CutBehind(seqno: SeqNum, ghost s: int, pos: int) returns (ghost t: int)
      requires Valid() && |nodes| > 0 && nodes[0].lo < s < nodes[0].lo + SEQ_NO_TH
      requires seqno == Wrap(s) && pos == Loc(size, anchor, s)
      modifies this, data1, data2, next
      ensures Inv(-1, old(head)) && anchor == old(anchor) && Contents() == old(Contents())
      ensures 0 < t <= |nodes| && nodes[t - 1].hi <= s && (t < |nodes| ==> s < nodes[t].lo)
      ensures head == if t == |nodes| then -1 else Loc(size, anchor, nodes[t].lo)
    {
      hide Ordered, Narrow, Stored, Members, Total, Covers, Owned, FirstCell, Split;
      var loc := pos;
      ghost var k := StartsAt(s);
      ReadNode(-1, head, 0);
      if seqno == data1[loc] {
        // the range starting at `s` loses its first position, or all of itself
        var temp := loc;
        loc := SlotBehind(loc, s);
        ReadNode(-1, head, k);
        if k + 1 < |nodes| { NextBehind(k); }
        if data2[temp] == -1 {
          head := next[temp];
        } else {
          SplitFacts(k, s);
          SplitNode(temp, k, loc, seqno, -1, s);
        }
      } else {
        // the range before `s`, if it reaches that far, loses its part up to `s`
        var i: int;
        i, k := WalkTo(head, 0, seqno, s);
        loc := SlotBehind(loc, s);
        ReadNode(-1, head, k);
        SeqCmpIsOrder(nodes[k].hi, s);
        if data2[i] == -1 {
          head := next[i];
        } else if SeqCmp(data2[i], seqno) > 0 {
          SplitFacts(k, s);
          SplitNode(i, k, loc, seqno, seqno, s);
        } else {
          head := next[i];
        }
      }
      t := k + 1;
    }

    /** Removes every position up to `s`. */
    method Remove(seqno: SeqNum, ghost s: int)
      requires Valid() && seqno == Wrap(s)
      requires Contents() != {} ==> -SEQ_NO_TH < s - First() < SEQ_NO_TH
      modifies this, data1, data2, next
      ensures Valid()
      ensures Contents() == set x | x in old(Contents()) && x > s
    {
      hide Ordered, Narrow, Stored, Members, Total, Covers, Owned, FirstCell, Split, WithoutFirst;
      LengthIsSize();
      if length == 0 {
        return;
      }
      ReadNode(-1, head, 0);
      DropFirstFacts();
      SeqOffIsDistance(nodes[0].lo, s);
      var offset := SeqOff(data1[head], seqno);
      var loc := SlotAt(offset);
      if offset == 0 {
        DropFirst(seqno);
      } else if offset > 0 {
        var h := head;
        ghost var t := CutBehind(seqno, s, loc);
        CutContents(h, t, s);
        DropRanges(h, t);
      }
    }

    lemma CutContents(h: int, t: int, s: int)
      requires Inv(-1, h) && 0 < t <= |nodes| && nodes[t - 1].hi <= s && (t < |nodes| ==> s < nodes[t].lo)
      ensures Members(nodes[t..]) == set x | x in Contents() && x > s
    {
      hide Narrow, Stored, Owned, Total;
      CutMembers(nodes, t, s);
    }
  }
}
