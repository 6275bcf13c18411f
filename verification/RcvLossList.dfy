/** The receiver's loss list: the positions that have been skipped over and not yet arrived.
    New ranges only arrive behind all others; single positions leave anywhere. */
module RcvLossList {
  import opened SeqNo
  import opened Ring
  import opened LossNodes
  import opened LossReport

  class RcvLossList {
    const size: int
    const data1: array<int>
    const data2: array<int>
    const next: array<int>
    const prior: array<int>
    var head: int
    var tail: int
    var length: int

    ghost var anchor: int       // the position whose slot is 0
    ghost var nodes: seq<Range> // the ranges in list order

    ghost function Arrays(): Cells
      reads data1, data2, next
    {
      Cells(data1[..], data2[..], next[..])
    }

    ghost predicate Apart()
      reads {}
    {
      && data1 != data2 && data1 != next && data1 != prior
      && data2 != next && data2 != prior && next != prior
    }

    ghost predicate Valid()
      reads this, data1, data2, next, prior
    {
      && 0 < size < SEQ_NO_TH && Apart()
      && Ordered(nodes, -1) && Narrow(nodes, size)
      && Stored(size, anchor, Arrays(), nodes)
      && Linked(size, anchor, prior[..], nodes)
      && head == FirstCell(size, anchor, nodes)
      && (|nodes| > 0 ==> tail == Loc(size, anchor, nodes[|nodes| - 1].lo))
      && length == Total(nodes)
    }

    /** The abstract value: the set of stream positions on the list. */
    ghost function Contents(): set<int>
      reads this
    {
      Members(nodes)
    }

    constructor (size: int)
      requires 0 < size < SEQ_NO_TH
      ensures Valid() && Contents() == {} && this.size == size
      ensures fresh(data1) && fresh(data2) && fresh(next) && fresh(prior)
    {
      this.size := size;
      data1 := new int[size](_ => -1);
      data2 := new int[size](_ => -1);
      next := new int[size];
      prior := new int[size];
      head, tail, length := -1, -1, 0;
      anchor, nodes := 0, [];
    }

    lemma SizeOk()
      requires Valid()
      ensures 0 < size < SEQ_NO_TH
    {
    }

    /** What the arrays hold for range `k`. */
    lemma ReadNode(k: int)
      requires Valid() && 0 <= k < |nodes|
      ensures var p := Loc(size, anchor, nodes[k].lo);
              data1[p] == Wrap(nodes[k].lo) && data2[p] == EndCell(nodes[k]) &&
              next[p] == NextCell(size, anchor, nodes, k) &&
              prior[p] == if k > 0 then Loc(size, anchor, nodes[k - 1].lo) else -1
      ensures nodes[0].lo <= nodes[k].lo <= nodes[k].hi < nodes[0].lo + size
      ensures data1.Length == data2.Length == next.Length == prior.Length == size
      ensures head == Loc(size, anchor, nodes[0].lo) && tail == Loc(size, anchor, nodes[|nodes| - 1].lo)
    {
      assert NodeAt(size, anchor, Arrays(), nodes, k);
      assert BackAt(size, anchor, prior[..], nodes, k);
    }

    /** `length` counts the members. */
    lemma LengthIsSize()
      requires Valid()
      ensures length == |Contents()|
      ensures length == 0 <==> nodes == []
      ensures nodes == [] <==> Contents() == {}
    {
      TotalIsSize(nodes);
      TotalPositive(nodes);
      if nodes == [] { assert Total(nodes) == 0; }
    }

    /** The least position on the list. */
    ghost function First(): int
      requires Valid() && Contents() != {}
      reads this, data1, data2, next, prior
      ensures First() in Contents() && forall x :: x in Contents() ==> First() <= x
    {
      LengthIsSize();
      FirstIsLeast();
      nodes[0].lo
    }

    lemma FirstIsLeast()
      requires Valid() && |nodes| > 0
      ensures nodes[0].lo in Contents() && forall x :: x in Contents() ==> nodes[0].lo <= x
      ensures forall x :: x in Contents() ==> x <= nodes[|nodes| - 1].hi
      ensures nodes[|nodes| - 1].hi in Contents()
    {
      WithoutFirstMembers(nodes);
      FrontMembers(nodes, |nodes|, nodes[|nodes| - 1].hi);
      assert nodes[..|nodes|] == nodes;
      assert nodes[|nodes| - 1].lo <= nodes[|nodes| - 1].hi;
    }

    function GetLossLength(): (n: int)
      requires Valid()
      reads this, data1, data2, next, prior
      ensures n == |Contents()|
    {
      LengthIsSize();
      length
    }

    /** The least lost sequence number, -1 if there is none. */
    function GetFirstLostSeq(): (seqno: int)
      requires Valid()
      reads this, data1, data2, next, prior
      ensures if Contents() == {} then seqno == -1
              else seqno == Wrap(First()) && First() in Contents() && forall x :: x in Contents() ==> First() <= x
    {
      LengthIsSize();
      if length == 0 then -1
      else
        ReadNode(0);
        FirstIsLeast();
        data1[head]
    }

    /** The slot `offset` positions behind the head. */
    method SlotAt(offset: int) returns (loc: int)
      requires Valid() && |nodes| > 0
      ensures loc == Loc(size, anchor, nodes[0].lo + offset) && 0 <= loc < size == data1.Length
    {
      LocStep(size, anchor, nodes[0].lo, offset);
      loc := (head + offset) % size;
    }

    /** The slot behind slot `loc`. */
    method SlotBehind(loc: int, ghost x: int) returns (r: int)
      requires 0 < size && loc == Loc(size, anchor, x)
      ensures r == Loc(size, anchor, x + 1) && 0 <= r < size
    {
      LocStep(size, anchor, x, 1);
      r := (loc + 1) % size;
    }

    /** The slot in front of slot `loc`. */
    method SlotBefore(loc: int, ghost x: int) returns (r: int)
      requires 0 < size && loc == Loc(size, anchor, x)
      ensures r == Loc(size, anchor, x - 1) && 0 <= r < size
    {
      LocStep(size, anchor, x, -1);
      r := (loc - 1 + size) % size;
    }

    // -------------------------------------------------------------- insert

    /** Fills the free slot `loc` with the range `r`. */
    method WriteNode(loc: int, seqno1: SeqNum, seqno2: SeqNum, ghost r: Range)
      requires 0 <= loc < data1.Length == data2.Length && data1 != data2
      requires data2[loc] == -1
      requires seqno1 == Wrap(r.lo) && seqno2 == Wrap(r.hi) && 0 <= r.hi - r.lo < SEQ_NO_TH
      modifies data1, data2
      ensures data1[..] == old(data1[..])[loc := Wrap(r.lo)]
      ensures data2[..] == old(data2[..])[loc := EndCell(r)]
    {
      SeqCmpIsOrder(r.lo, r.hi);
      data1[loc] := seqno1;
      if seqno2 != seqno1 {
        data2[loc] := seqno2;
      }
    }

    lemma FirstFacts(a: int, b: int)
      requires Valid() && length == 0 && 0 <= b - a < size
      ensures var ns', c := [Range(a, b)], Arrays();
              && Ordered(ns', -1) && Narrow(ns', size)
              && Stored(size, a, Cells(c.d1[0 := Wrap(a)], c.d2[0 := EndCell(Range(a, b))], c.nx[0 := -1]), ns')
              && Linked(size, a, prior[..][0 := -1], ns')
              && Total(ns') == b - a + 1 && FirstCell(size, a, ns') == 0
      ensures data2[0] == -1 && data1.Length == data2.Length == next.Length == prior.Length == size
    {
      TotalPositive(nodes);
      StoredInsert(size, a, Arrays(), [], 0, Range(a, b));
      assert Inserted([], 0, Range(a, b)) == [Range(a, b)];
      TotalOne(Range(a, b));
      assert BackAt(size, a, prior[..][0 := -1], [Range(a, b)], 0);
    }

    lemma AppendFacts(a: int, b: int)
      requires Valid() && |nodes| > 0 && nodes[|nodes| - 1].hi < a <= b < nodes[0].lo + size
      ensures var ns', c, p := nodes + [Range(a, b)], Arrays(), Loc(size, anchor, a);
              && Ordered(ns', -1) && Narrow(ns', size)
              && Stored(size, anchor, Cells(c.d1[p := Wrap(a)], c.d2[p := EndCell(Range(a, b))],
                                            c.nx[tail := p][p := -1]), ns')
              && Linked(size, anchor, prior[..][p := tail], ns')
              && Total(ns') == length + b - a + 1 && FirstCell(size, anchor, ns') == head
              && Members(ns') == Contents() + Span(a, b)
      ensures data2[Loc(size, anchor, a)] == -1 && Loc(size, anchor, a) != tail
      ensures SeqLen(Wrap(a), Wrap(b)) == b - a + 1
    {
      hide Ordered, Narrow, Stored, Linked, Members, Total, Covers, Span;
      var n, r := |nodes|, Range(a, b);
      assert Inserted(nodes, n, r) == nodes + [r];
      ReadNode(n - 1);
      InsertedOrdered(nodes, n, r);
      InsertedNarrow(nodes, n, r, size);
      StoredInsert(size, anchor, Arrays(), nodes, n, r);
      ClosedOrdered(Inserted(nodes, n, r), n);
      LocsDiffer(size, anchor, Inserted(nodes, n, r), -1, n, n - 1);
      LinkedAppend(size, anchor, prior[..], nodes, r);
      TotalInsert(nodes, n, r);
      MembersInsert(nodes, n, r);
      SeqLenCounts(a, b);
      var p := Loc(size, anchor, a);
      assert next[..][p := -1][tail := p] == next[..][tail := p][p := -1];
    }

    lemma ExtendFacts(b: int)
      requires Valid() && |nodes| > 0 && nodes[|nodes| - 1].hi < b < nodes[0].lo + size
      ensures var k := |nodes| - 1;
              var ns', c := nodes[k := Range(nodes[k].lo, b)], Arrays();
              && Ordered(ns', -1) && Narrow(ns', size)
              && Stored(size, anchor, c.(d2 := c.d2[tail := Wrap(b)]), ns')
              && Linked(size, anchor, prior[..], ns')
              && Total(ns') == length + b - nodes[k].hi && FirstCell(size, anchor, ns') == head
              && Members(ns') == Contents() + Span(nodes[k].hi + 1, b)
      ensures tail < data2.Length && SeqLen(Wrap(nodes[|nodes| - 1].hi + 1), Wrap(b)) == b - nodes[|nodes| - 1].hi
    {
      hide Members, Total, Covers, Span;
      var k := |nodes| - 1;
      ReadNode(k);
      var c', ns' := StoredSetEnd(size, anchor, Arrays(), nodes, -1, k, b);
      TotalSetEnd(nodes, k, Range(nodes[k].lo, b));
      LinkedSameStarts(size, anchor, prior[..], nodes, ns');
      MembersSetEnd(nodes, k, b);
      LastMembers();
      SeqLenCounts(nodes[k].hi + 1, b);
    }

    lemma LastMembers()
      requires Valid() && |nodes| > 0
      ensures forall x :: nodes[|nodes| - 1].lo <= x <= nodes[|nodes| - 1].hi ==> x in Contents()
    {
    }

    method InsertIntoEmpty(seqno1: SeqNum, seqno2: SeqNum, ghost a: int, ghost b: int)
      requires Valid() && length == 0 && 0 <= b - a < size
      requires seqno1 == Wrap(a) && seqno2 == Wrap(b)
      modifies this, data1, data2, next, prior
      ensures Valid() && nodes == [Range(a, b)] && Contents() == Span(a, b)
    {
      hide Ordered, Narrow, Stored, Linked, Members, Total, Covers, Span, FirstCell;
      FirstFacts(a, b);
      SeqLenCounts(a, b);
      MembersOne(Range(a, b));
      head, tail := 0, 0;
      WriteNode(head, seqno1, seqno2, Range(a, b));
      next[head] := -1;
      prior[head] := -1;
      length := length + SeqLen(seqno1, seqno2);
      anchor, nodes := a, [Range(a, b)];
    }

    /** Adds a..b behind everything on the list. */
    method Insert(seqno1: SeqNum, seqno2: SeqNum, ghost a: int, ghost b: int)
      requires Valid() && a <= b && b - a < size
      requires seqno1 == Wrap(a) && seqno2 == Wrap(b)
      requires forall x :: x in Contents() ==> x < a && b - x < size
      modifies this, data1, data2, next, prior
      ensures Valid()
      ensures Contents() == old(Contents()) + Span(a, b)
    {
      hide Ordered, Narrow, Stored, Linked, Members, Total, Covers, Span, FirstCell;
      LengthIsSize();
      if length == 0 {
        InsertIntoEmpty(seqno1, seqno2, a, b);
        return;
      }
      FirstIsLeast();
      ReadNode(0);
      SeqOffIsDistance(nodes[0].lo, a);
      var offset := SeqOff(data1[head], seqno1);
      var loc := SlotAt(offset);
      ghost var k := |nodes| - 1;
      ReadNode(k);
      IncWraps(nodes[k].hi);
      SeqCmpIsOrder(nodes[k].hi + 1, a);
      if data2[tail] != -1 && IncSeq(data2[tail]) == seqno1 {
        ExtendTail(seqno1, seqno2, b);
      } else {
        AppendNode(loc, seqno1, seqno2, a, b);
      }
    }

    /** The last range grows up to `b`. */
    method ExtendTail(seqno1: SeqNum, seqno2: SeqNum, ghost b: int)
      requires Valid() && |nodes| > 0 && nodes[|nodes| - 1].hi < b < nodes[0].lo + size
      requires seqno1 == Wrap(nodes[|nodes| - 1].hi + 1) && seqno2 == Wrap(b)
      modifies this, data2
      ensures Valid() && Contents() == old(Contents()) + Span(old(nodes[|nodes| - 1].hi) + 1, b)
    {
      hide Ordered, Narrow, Stored, Linked, Members, Total, Covers, Span, FirstCell;
      ExtendFacts(b);
      data2[tail] := seqno2;
      length := length + SeqLen(seqno1, seqno2);
      nodes := nodes[|nodes| - 1 := Range(nodes[|nodes| - 1].lo, b)];
    }

    /** A new node behind the tail. */
    method AppendNode(loc: int, seqno1: SeqNum, seqno2: SeqNum, ghost a: int, ghost b: int)
      requires Valid() && |nodes| > 0 && nodes[|nodes| - 1].hi < a <= b < nodes[0].lo + size
      requires seqno1 == Wrap(a) && seqno2 == Wrap(b) && loc == Loc(size, anchor, a)
      modifies this, data1, data2, next, prior
      ensures Valid() && Contents() == old(Contents()) + Span(a, b)
    {
      hide Ordered, Narrow, Stored, Linked, Members, Total, Covers, Span, FirstCell;
      AppendFacts(a, b);
      ReadNode(|nodes| - 1);
      WriteNode(loc, seqno1, seqno2, Range(a, b));
      next[tail] := loc;
      prior[loc] := tail;
      next[loc] := -1;
      tail := loc;
      length := length + SeqLen(seqno1, seqno2);
      nodes := nodes + [Range(a, b)];
    }

    // -------------------------------------------------------------- remove

    /** The list as a value after position `s` of range `k` has been taken out, except for the
        arrays. */
    lemma TakenOutFacts(k: int, s: int)
      requires Valid() && 0 <= k < |nodes| && nodes[k].lo <= s <= nodes[k].hi
      ensures var ns' := TakenOut(nodes, k, s);
              && Ordered(ns', -1) && Narrow(ns', size)
              && Total(ns') == length - 1 && Members(ns') == Contents() - {s}
      ensures s in Contents()
    {
      TakenOutRanges(nodes, k, s, size);
      TakenOutMembers(nodes, k, s);
    }

    lemma UnlinkFacts(k: int, s: int)
      requires Valid() && 0 <= k < |nodes| && nodes[k].lo == s == nodes[k].hi
      ensures var ns', c, p := TakenOut(nodes, k, s), Arrays(), Loc(size, anchor, s);
              && Stored(size, anchor, Cells(c.d1[p := -1], c.d2,
                   if k == 0 then c.nx else c.nx[Loc(size, anchor, nodes[k - 1].lo) := c.nx[p]]), ns')
              && Linked(size, anchor, Relinked(size, anchor, prior[..], nodes, k, prior[..][p]), ns')
              && FirstCell(size, anchor, ns') == (if k == 0 then c.nx[p] else head)
              && |ns'| == |nodes| - 1
              && (|ns'| > 0 ==> Loc(size, anchor, ns'[|ns'| - 1].lo) == if k == |nodes| - 1 then prior[..][p] else tail)
    {
      hide Ordered, Narrow, Stored, Linked;
      ReadNode(k);
      StoredRemove(size, anchor, Arrays(), nodes, -1, k);
      LinkedRemove(size, anchor, prior[..], nodes, k);
      assert data2[..][Loc(size, anchor, s) := -1] == data2[..];
    }

    /** Range `k` consists of `s` alone: its node leaves the list. */
    method UnlinkNode(loc: int, ghost k: int, ghost s: int)
      requires Valid() && 0 <= k < |nodes| && nodes[k].lo == s == nodes[k].hi
      requires loc == Loc(size, anchor, s)
      modifies this, data1, next, prior
      ensures Valid() && Contents() == old(Contents()) - {s}
    {
      hide Ordered, Narrow, Stored, Linked, Members, Total, Covers, FirstCell, TakenOut;
      TakenOutFacts(k, s);
      UnlinkFacts(k, s);
      ReadNode(k);
      HeadOnly(k);
      if head == loc {
        head := next[head];
        if head != -1 {
          prior[head] := -1;
        }
      } else {
        next[prior[loc]] := next[loc];
        if next[loc] != -1 {
          prior[next[loc]] := prior[loc];
        } else {
          tail := prior[loc];
        }
      }
      data1[loc] := -1;
      length := length - 1;
      nodes := TakenOut(nodes, k, s);
    }

    /** A slot is the head exactly when it holds range 0, the tail exactly when it holds the last. */
    lemma HeadOnly(k: int)
      requires Valid() && 0 <= k < |nodes|
      ensures Loc(size, anchor, nodes[k].lo) == head <==> k == 0
      ensures Loc(size, anchor, nodes[k].lo) == tail <==> k == |nodes| - 1
      ensures k > 0 ==> Loc(size, anchor, nodes[k - 1].lo) != Loc(size, anchor, nodes[k].lo)
    {
      if k != 0 { LocsDiffer(size, anchor, nodes, -1, 0, k); }
      if k != |nodes| - 1 { LocsDiffer(size, anchor, nodes, -1, |nodes| - 1, k); }
      if k > 0 { LocsDiffer(size, anchor, nodes, -1, k - 1, k); }
    }

    lemma AdvanceFacts(k: int, s: int)
      requires Valid() && 0 <= k < |nodes| && nodes[k].lo == s < nodes[k].hi
      ensures var ns', c, p, q := TakenOut(nodes, k, s), Arrays(), Loc(size, anchor, s), Loc(size, anchor, s + 1);
              && ns' == nodes[k := Range(s + 1, nodes[k].hi)]
              && Stored(size, anchor,
                   Cells(c.d1[q := Wrap(s + 1)][p := -1], c.d2[q := EndCell(Range(s + 1, nodes[k].hi))][p := -1],
                         if k == 0 then c.nx[q := c.nx[p]]
                         else c.nx[q := c.nx[p]][Loc(size, anchor, nodes[k - 1].lo) := q]), ns')
              && Linked(size, anchor, Relinked(size, anchor, prior[..][q := prior[..][p]], nodes, k, q), ns')
              && FirstCell(size, anchor, ns') == (if k == 0 then q else head)
              && Loc(size, anchor, ns'[|ns'| - 1].lo) == (if k == |nodes| - 1 then q else tail)
              && p != q && c.d2[q] == -1
              && forall j :: 0 <= j < |nodes| ==> Loc(size, anchor, nodes[j].lo) != q
    {
      hide Ordered, Narrow, Stored, Linked;
      ReadNode(k);
      StoredAdvance(size, anchor, Arrays(), nodes, k);
      NextSlotFree(size, anchor, Arrays(), nodes, k, s + 1);
      LinkedAdvance(size, anchor, prior[..], nodes, Arrays(), k);
    }

    /** Slot `i` takes over range `r` from slot `loc`, without its first position. */
    method MoveNode(loc: int, i: int, ghost r: Range)
      requires Apart()
      requires data1.Length == data2.Length == next.Length == prior.Length == size
      requires 0 <= loc < size && 0 <= i < size && loc != i
      requires 0 < r.hi - r.lo < SEQ_NO_TH
      requires data1[loc] == Wrap(r.lo) && data2[loc] == Wrap(r.hi) && data2[i] == -1
      modifies data1, data2, next, prior
      ensures Arrays() == old(var c := Arrays();
                Cells(c.d1[i := Wrap(r.lo + 1)][loc := -1], c.d2[i := EndCell(Range(r.lo + 1, r.hi))][loc := -1],
                      c.nx[i := c.nx[loc]]))
      ensures prior[..] == old(prior[..][i := prior[loc]])
    {
      IncWraps(r.lo);
      SeqCmpIsOrder(r.hi, r.lo + 1);
      data1[i] := IncSeq(data1[loc]);
      if SeqCmp(data2[loc], IncSeq(data1[loc])) > 0 {
        data2[i] := data2[loc];
      }
      data1[loc] := -1;
      data2[loc] := -1;
      next[i] := next[loc];
      prior[i] := prior[loc];
    }

    /** The neighbours of slot `i`, or head and tail, point at it instead of `loc`. */
    method Rejoin(loc: int, i: int)
      requires Apart()
      requires data1.Length == data2.Length == next.Length == prior.Length == size && 0 <= i < size
      requires head != loc ==> 0 <= prior[i] < size && prior[i] != i
      requires tail != loc ==> 0 <= next[i] < size
      modifies `head, `tail, next, prior
      ensures head == (if old(head) == loc then i else old(head)) && tail == if old(tail) == loc then i else old(tail)
      ensures Arrays() == old(var c := Arrays(); if head == loc then c else c.(nx := c.nx[prior[i] := i]))
      ensures prior[..] == old(if tail == loc then prior[..] else prior[..][next[i] := i])
    {
      if head == loc {
        head := i;
      } else {
        next[prior[i]] := i;
      }
      if tail == loc {
        tail := i;
      } else {
        prior[next[i]] := i;
      }
    }

    /** Range `k` loses its first position: its node moves to the next slot. */
    method AdvanceNode(loc: int, ghost k: int, ghost s: int)
      requires Valid() && 0 <= k < |nodes| && nodes[k].lo == s < nodes[k].hi
      requires loc == Loc(size, anchor, s)
      modifies this, data1, data2, next, prior
      ensures Valid() && Contents() == old(Contents()) - {s}
    {
      hide Ordered, Narrow, Stored, Linked, Members, Total, Covers, FirstCell, TakenOut;
      TakenOutFacts(k, s);
      AdvanceFacts(k, s);
      ReadNode(k);
      HeadOnly(k);
      var i := SlotBehind(loc, s);
      MoveNode(loc, i, nodes[k]);
      Rejoin(loc, i);
      length := length - 1;
      nodes := TakenOut(nodes, k, s);
    }

    lemma ShrinkFacts(k: int, s: int)
      requires Valid() && 0 <= k < |nodes| && nodes[k].lo < s == nodes[k].hi
      ensures var ns', c, p := TakenOut(nodes, k, s), Arrays(), Loc(size, anchor, nodes[k].lo);
              && Stored(size, anchor, c.(d2 := c.d2[p := EndCell(Range(nodes[k].lo, s - 1))]), ns')
              && Linked(size, anchor, prior[..], ns')
              && FirstCell(size, anchor, ns') == head && Loc(size, anchor, ns'[|ns'| - 1].lo) == tail
              && |ns'| == |nodes|
    {
      hide Ordered, Narrow, Stored, Linked;
      ReadNode(k);
      var c', ns' := StoredSetEnd(size, anchor, Arrays(), nodes, -1, k, s - 1);
      LinkedSameStarts(size, anchor, prior[..], nodes, ns');
    }

    lemma SplitOutFacts(k: int, s: int)
      requires Valid() && 0 <= k < |nodes| && nodes[k].lo < s < nodes[k].hi
      ensures var ns', c := TakenOut(nodes, k, s), Arrays();
              var p, q := Loc(size, anchor, nodes[k].lo), Loc(size, anchor, s + 1);
              && Stored(size, anchor,
                   Cells(c.d1[q := Wrap(s + 1)],
                         c.d2[q := EndCell(Range(s + 1, nodes[k].hi))][p := EndCell(Range(nodes[k].lo, s - 1))],
                         c.nx[q := c.nx[p]][p := q]), ns')
              && Linked(size, anchor, Relinked(size, anchor, prior[..][q := p], nodes, k, q), ns')
              && FirstCell(size, anchor, ns') == head
              && |ns'| == |nodes| + 1
              && Loc(size, anchor, ns'[|ns'| - 1].lo) == (if k == |nodes| - 1 then q else tail)
              && p != q && c.d2[q] == -1
              && forall j :: 0 <= j < |nodes| ==> Loc(size, anchor, nodes[j].lo) != q
    {
      hide Ordered, Narrow, Stored, Linked, Split, Relinked;
      ReadNode(k);
      var c, sp, p, q := Arrays(), Split(nodes, k, s), Loc(size, anchor, nodes[k].lo), Loc(size, anchor, s + 1);
      SplitRanges(nodes, k, s, size);
      StoredSplit(size, anchor, c, nodes, k, s);
      NextSlotFree(size, anchor, c, nodes, k, s + 1);
      LinkedSplit(size, anchor, prior[..], nodes, c, k, s);
      SplitNodes(nodes, k, s);
      SplitEnds(k, s);
      OverwriteTwice(c.d2[q := EndCell(Range(s + 1, nodes[k].hi))], p,
                     EndCell(Range(nodes[k].lo, s)), EndCell(Range(nodes[k].lo, s - 1)));
      var c', ns' := StoredSetEnd(size, anchor, SplitCells(size, anchor, c, nodes, k, s), sp, -1, k, s - 1);
      LinkedSameStarts(size, anchor, Relinked(size, anchor, prior[..][q := p], nodes, k, q), sp, ns');
    }

    lemma OverwriteTwice(d: seq<int>, p: int, x: int, y: int)
      requires 0 <= p < |d|
      ensures d[p := x][p := y] == d[p := y]
    {
    }

    lemma SplitEnds(k: int, s: int)
      requires 0 <= k < |nodes|
      ensures var sp := Split(nodes, k, s);
              |sp| == |nodes| + 1 && sp[0].lo == nodes[0].lo &&
              sp[|sp| - 1].lo == if k == |nodes| - 1 then s + 1 else nodes[|nodes| - 1].lo
    {
    }

    /** The cell for the end of a range that started at `lo` and now ends before `s`. */
    method EndBefore(start: SeqNum, seqno: SeqNum, ghost lo: int, ghost s: int) returns (cell: int)
      requires start == Wrap(lo) && seqno == Wrap(s) && 0 < s - lo < SEQ_NO_TH
      ensures cell == EndCell(Range(lo, s - 1))
    {
      IncWraps(lo);
      IncWraps(s - 1);
      SeqCmpIsOrder(lo + 1, s);
      if seqno == IncSeq(start) {
        cell := -1;
      } else {
        cell := DecSeq(seqno);
      }
    }

    /** Range `k` ends with `s` and loses it. */
    method ShrinkNode(i: int, seqno: SeqNum, ghost k: int, ghost s: int)
      requires Valid() && 0 <= k < |nodes| && nodes[k].lo < s == nodes[k].hi
      requires i == Loc(size, anchor, nodes[k].lo) && seqno == Wrap(s)
      modifies this, data2
      ensures Valid() && Contents() == old(Contents()) - {s}
    {
      hide Ordered, Narrow, Stored, Linked, Members, Total, Covers, FirstCell, TakenOut;
      TakenOutFacts(k, s);
      ShrinkFacts(k, s);
      ReadNode(k);
      data2[i] := EndBefore(data1[i], seqno, nodes[k].lo, s);
      length := length - 1;
      nodes := TakenOut(nodes, k, s);
    }

    /** Range `k` contains `s` inside and falls in two. */
    method SplitNode(i: int, pos: int, seqno: SeqNum, ghost k: int, ghost s: int)
      requires Valid() && 0 <= k < |nodes| && nodes[k].lo < s < nodes[k].hi
      requires i == Loc(size, anchor, nodes[k].lo) && pos == Loc(size, anchor, s) && seqno == Wrap(s)
      modifies this, data1, data2, next, prior
      ensures Valid() && Contents() == old(Contents()) - {s}
    {
      hide Ordered, Narrow, Stored, Linked, Members, Total, Covers, FirstCell, TakenOut;
      TakenOutFacts(k, s);
      SplitOutFacts(k, s);
      ReadNode(k);
      HeadOnly(k);
      var loc := SlotBehind(pos, s);
      var cell := EndBefore(data1[i], seqno, nodes[k].lo, s);
      SplitCellsIn(i, loc, seqno, cell, nodes[k], s);
      if tail == i {
        tail := loc;
      } else {
        prior[next[loc]] := loc;
      }
      length := length - 1;
      nodes := TakenOut(nodes, k, s);
    }

    /** The array updates that put the part behind `s` of range `r` from slot `i` into slot `loc`. */
    method SplitCellsIn(i: int, loc: int, seqno: SeqNum, cell: int, ghost r: Range, ghost s: int)
      requires Apart()
      requires data1.Length == data2.Length == next.Length == prior.Length == size
      requires 0 <= i < size && 0 <= loc < size && i != loc
      requires r.lo < s < r.hi && r.hi - r.lo < SEQ_NO_TH
      requires seqno == Wrap(s) && data2[i] == Wrap(r.hi) && data2[loc] == -1
      modifies data1, data2, next, prior
      ensures Arrays() == old(var c := Arrays();
                Cells(c.d1[loc := Wrap(s + 1)], c.d2[loc := EndCell(Range(s + 1, r.hi))][i := cell],
                      c.nx[loc := c.nx[i]][i := loc]))
      ensures prior[..] == old(prior[..])[loc := i]
    {
      IncWraps(s);
      SeqCmpIsOrder(r.hi, s + 1);
      data1[loc] := IncSeq(seqno);
      if SeqCmp(data2[i], data1[loc]) > 0 {
        data2[loc] := data2[i];
      }
      data2[i] := cell;
      next[loc] := next[i];
      next[i] := loc;
      prior[loc] := i;
    }

    lemma OwnerOf(p: int) returns (k: int)
      requires Valid() && 0 <= p < size && data1[p] != -1
      ensures 0 <= k < |nodes| && Loc(size, anchor, nodes[k].lo) == p
    {
      assert Arrays().d1[p] != -1;
      assert Owned(size, anchor, nodes, p);
      k :| 0 <= k < |nodes| && Loc(size, anchor, nodes[k].lo) == p;
    }

    lemma EmptySlot(y: int)
      requires Valid() && 0 <= Loc(size, anchor, y) < data1.Length && data1[Loc(size, anchor, y)] == -1
      ensures forall j :: 0 <= j < |nodes| ==> nodes[j].lo != y
    {
      forall j | 0 <= j < |nodes|
        ensures nodes[j].lo != y
      {
        ReadNode(j);
      }
    }

    /** Walks back slot by slot from the empty slot `pos` of `s` to the first one in use; inside
        the window it holds the last range that starts before `s`. */
    method FindBack(pos: int, ghost s: int) returns (i: int, ghost k: int)
      requires Valid() && |nodes| > 0 && nodes[0].lo < s && pos == Loc(size, anchor, s)
      requires forall j :: 0 <= j < |nodes| ==> nodes[j].lo != s
      ensures 0 <= k < |nodes| && i == Loc(size, anchor, nodes[k].lo)
      ensures s - nodes[0].lo < size ==> nodes[k].lo < s && forall j :: k < j < |nodes| ==> s < nodes[j].lo
    {
      hide Stored, Linked, Members, Total, Covers, FirstCell, Narrow;
      ReadNode(0);
      i := SlotBefore(pos, s);
      ghost var y := s - 1;
      while data1[i] == -1
        invariant nodes[0].lo <= y < s && i == Loc(size, anchor, y) && 0 <= i < size
        invariant forall j :: 0 <= j < |nodes| ==> nodes[j].lo <= y || nodes[j].lo > s
        decreases y - nodes[0].lo
      {
        EmptySlot(y);
        i := SlotBefore(i, y);
        y := y - 1;
      }
      k := OwnerOf(i);
      ReadNode(k);
      if s - nodes[0].lo < size && nodes[k].lo != y { LocInjective(size, anchor, nodes[k].lo, y); }
    }

    /** A range starts at `a` exactly when the slot of `a` says so. */
    lemma StartsAt(a: int) returns (k: int)
      requires Valid() && |nodes| > 0 && -SEQ_NO_TH < a - nodes[0].lo < SEQ_NO_TH
      ensures data1.Length == size
      ensures data1[Loc(size, anchor, a)] == Wrap(a) ==> 0 <= k < |nodes| && nodes[k].lo == a
      ensures data1[Loc(size, anchor, a)] != Wrap(a) ==> forall j :: 0 <= j < |nodes| ==> nodes[j].lo != a
    {
      ReadNode(0);
      StartCell(size, anchor, Arrays(), nodes, -1, a);
      k := 0;
      if data1[Loc(size, anchor, a)] == Wrap(a) {
        k :| 0 <= k < |nodes| && nodes[k].lo == a;
      }
    }

    /** Outside the window, and behind the last range before it, `s` is not on the list. */
    lemma NotLost(k: int, s: int)
      requires Valid() && 0 <= k < |nodes| && nodes[k].hi < s
      requires s - nodes[0].lo < size ==> forall j :: k < j < |nodes| ==> s < nodes[j].lo
      ensures s !in Contents()
    {
      if s in Contents() {
        var j :| 0 <= j < |nodes| && nodes[j].lo <= s <= nodes[j].hi;
        ReadNode(j);
      }
    }

    /** Takes `s` off the list and reports whether it was there. */
    method Remove(seqno: SeqNum, ghost s: int) returns (found: bool)
      requires Valid() && seqno == Wrap(s)
      requires Contents() != {} ==> -SEQ_NO_TH < s - First() < SEQ_NO_TH
      modifies this, data1, data2, next, prior
      ensures Valid()
      ensures found <==> s in old(Contents())
      ensures Contents() == old(Contents()) - {s}
    {
      hide Ordered, Narrow, Stored, Linked, Members, Total, Covers, FirstCell, TakenOut;
      LengthIsSize();
      if length == 0 {
        return false;
      }
      ReadNode(0);
      FirstIsLeast();
      SeqOffIsDistance(nodes[0].lo, s);
      var offset := SeqOff(data1[head], seqno);
      if offset < 0 {
        AbsentStays(s);
        return false;
      }
      var loc := SlotAt(offset);
      ghost var k := StartsAt(s);
      if seqno == data1[loc] {
        TakeStart(loc, k, s);
        return true;
      }
      found := TakeInside(loc, seqno, s);
    }

    /** No range starts at `s`: it can only lie inside the range before it. */
    method TakeInside(loc: int, seqno: SeqNum, ghost s: int) returns (found: bool)
      requires Valid() && |nodes| > 0 && nodes[0].lo <= s < nodes[0].lo + SEQ_NO_TH
      requires loc == Loc(size, anchor, s) && seqno == Wrap(s)
      requires forall j :: 0 <= j < |nodes| ==> nodes[j].lo != s
      modifies this, data1, data2, next, prior
      ensures Valid()
      ensures found <==> s in old(Contents())
      ensures Contents() == old(Contents()) - {s}
    {
      hide Ordered, Narrow, Stored, Linked, Members, Total, Covers, FirstCell, TakenOut;
      assert nodes[0].lo != s;
      var i, k := FindBack(loc, s);
      ReadNode(k);
      SeqCmpIsOrder(s, nodes[k].hi);
      if data2[i] == -1 || SeqCmp(seqno, data2[i]) > 0 {
        NotLost(k, s);
        AbsentStays(s);
        return false;
      }
      TakenOutFacts(k, s);
      if seqno == data2[i] {
        ShrinkNode(i, seqno, k, s);
      } else {
        SplitNode(i, loc, seqno, k, s);
      }
      return true;
    }

    lemma AbsentStays(s: int)
      requires s !in Contents()
      ensures Contents() == Contents() - {s}
    {
    }

    /** Range `k` starts at `s`. */
    method TakeStart(loc: int, ghost k: int, ghost s: int)
      requires Valid() && 0 <= k < |nodes| && nodes[k].lo == s && loc == Loc(size, anchor, s)
      modifies this, data1, data2, next, prior
      ensures Valid() && Contents() == old(Contents()) - {s} && s in old(Contents())
    {
      hide Ordered, Narrow, Stored, Linked, Members, Total, Covers, FirstCell, TakenOut;
      ReadNode(k);
      TakenOutFacts(k, s);
      if data2[loc] == -1 {
        UnlinkNode(loc, k, s);
      } else {
        AdvanceNode(loc, k, s);
      }
    }

    /** Takes the numbers from `seqno1` to `seqno2` off the list, except that the loop over a
        range that wraps stops short of the largest sequence number. */
    method RemoveRange(seqno1: SeqNum, seqno2: SeqNum, ghost a: int, ghost b: int)
      requires Valid() && a <= b && seqno1 == Wrap(a) && seqno2 == Wrap(b) && b - a < MODULUS
      requires seqno2 != MAX_SEQ_NO // the 32-bit loop counter could not pass it
      requires forall x :: x in Contents() ==> b - x < SEQ_NO_TH && x - a < SEQ_NO_TH
      modifies this, data1, data2, next, prior
      ensures Valid()
      ensures seqno1 <= seqno2 ==> Contents() == old(Contents()) - Span(a, b)
      ensures seqno1 > seqno2 ==>
                Contents() == old(Contents()) - (Span(a, b) - {a + MAX_SEQ_NO - seqno1})
    {
      hide Ordered, Narrow, Stored, Linked, Members, Total, Covers, FirstCell, Span;
      WrapDiff(a, b);
      if seqno1 <= seqno2 {
        RemoveRun(seqno1, seqno2 + 1, a);
      } else {
        RemoveRun(seqno1, MAX_SEQ_NO, a);
        WrapAhead(a, MODULUS - seqno1);
        RemoveRun(0, seqno2 + 1, a + MODULUS - seqno1);
      }
    }

    lemma WrapAhead(a: int, d: int)
      requires 0 <= d <= MODULUS
      ensures Wrap(a) + d <= MAX_SEQ_NO ==> Wrap(a + d) == Wrap(a) + d
      ensures Wrap(a) + d == MODULUS ==> Wrap(a + d) == 0
    {
      assert a == MODULUS * (a / MODULUS) + Wrap(a);
    }

    lemma MinusNext(s: set<int>, a: int, y: int)
      requires a <= y
      ensures s - Span(a, y - 1) - {y} == s - Span(a, y)
    {
    }

    lemma FirstIsClose(s: int)
      requires Valid() && forall x :: x in Contents() ==> -SEQ_NO_TH < s - x < SEQ_NO_TH
      ensures Contents() != {} ==> -SEQ_NO_TH < s - First() < SEQ_NO_TH
    {
      hide Ordered, Narrow, Stored, Linked, Members, Total, Covers, FirstCell;
      LengthIsSize();
      if |nodes| > 0 { FirstIsLeast(); }
    }

    /** One counting loop of `RemoveRange`: the numbers from `first` up to, not including, `end`. */
    method RemoveRun(first: int, end: int, ghost a: int)
      requires Valid() && 0 <= first <= MAX_SEQ_NO && 0 <= end <= MAX_SEQ_NO && first == Wrap(a)
      requires forall x :: x in Contents() ==> a + end - first - 1 - x < SEQ_NO_TH && x - a < SEQ_NO_TH
      modifies this, data1, data2, next, prior
      ensures Valid() && Contents() == old(Contents()) - Span(a, a + end - first - 1)
    {
      hide Ordered, Narrow, Stored, Linked, Members, Total, Covers, FirstCell, Span;
      var i := first;
      while i < end
        invariant Valid() && first <= i && (i <= end || end < first)
        invariant i > first ==> i <= end
        invariant Contents() == old(Contents()) - Span(a, a + i - first - 1)
      {
        WrapAhead(a, i - first);
        FirstIsClose(a + i - first);
        MinusNext(old(Contents()), a, a + i - first);
        var found := Remove(i, a + i - first);
        i := i + 1;
      }
    }

    /** Whether any number from `seqno1` to `seqno2` is lost. */
    method Find(seqno1: SeqNum, seqno2: SeqNum, ghost a: int, ghost b: int) returns (found: bool)
      requires Valid() && a <= b && seqno1 == Wrap(a) && seqno2 == Wrap(b)
      requires forall x :: x in Contents() ==>
                 -SEQ_NO_TH < x - a < SEQ_NO_TH && -SEQ_NO_TH < x - b < SEQ_NO_TH
      ensures found <==> exists x :: x in Contents() && a <= x <= b
    {
      hide Ordered, Narrow, Stored, Linked, Members, Total;
      LengthIsSize();
      if length == 0 {
        return false;
      }
      var p := head;
      ghost var k := 0;
      ReadNode(0);
      while p != -1
        invariant 0 <= k <= |nodes| && p == if k < |nodes| then Loc(size, anchor, nodes[k].lo) else -1
        invariant forall j :: 0 <= j < k ==> !(nodes[j].lo <= b && a <= nodes[j].hi)
        decreases |nodes| - k
      {
        ReadNode(k);
        RangeTests(k, a, b);
        if SeqCmp(data1[p], seqno1) == 0
           || (SeqCmp(data1[p], seqno1) > 0 && SeqCmp(data1[p], seqno2) <= 0)
           || (SeqCmp(data1[p], seqno1) < 0 && data2[p] != -1 && SeqCmp(data2[p], seqno1) >= 0) {
          Meets(k, a, b);
          return true;
        }
        p := next[p];
        k := k + 1;
      }
      return false;
    }

    lemma RangeTests(k: int, a: int, b: int)
      requires Valid() && 0 <= k < |nodes|
      requires forall x :: x in Contents() ==>
                 -SEQ_NO_TH < x - a < SEQ_NO_TH && -SEQ_NO_TH < x - b < SEQ_NO_TH
      ensures SeqCmp(Wrap(nodes[k].lo), Wrap(a)) == 0 <==> nodes[k].lo == a
      ensures SeqCmp(Wrap(nodes[k].lo), Wrap(a)) > 0 <==> nodes[k].lo > a
      ensures SeqCmp(Wrap(nodes[k].lo), Wrap(a)) < 0 <==> nodes[k].lo < a
      ensures SeqCmp(Wrap(nodes[k].lo), Wrap(b)) <= 0 <==> nodes[k].lo <= b
      ensures SeqCmp(Wrap(nodes[k].hi), Wrap(a)) >= 0 <==> nodes[k].hi >= a
    {
      assert nodes[k].lo <= nodes[k].hi;
      assert nodes[k].lo in Contents() && nodes[k].hi in Contents();
      SeqCmpIsOrder(nodes[k].lo, a);
      SeqCmpIsOrder(nodes[k].lo, b);
      SeqCmpIsOrder(nodes[k].hi, a);
    }

    lemma Meets(k: int, a: int, b: int)
      requires 0 <= k < |nodes| && a <= b && nodes[k].lo <= nodes[k].hi && nodes[k].lo <= b && a <= nodes[k].hi
      ensures exists x :: x in Contents() && a <= x <= b
    {
      var x := if nodes[k].lo < a then a else nodes[k].lo;
      assert x in Contents();
    }

    /** Appends the words of range `r` to the report. */
    method WriteRange(report: array<int>, pos: int, start: int, end: int, ghost r: Range) returns (len: int)
      requires 0 <= pos < report.Length - 1
      requires start == Wrap(r.lo) && end == EndCell(r)
      modifies report
      ensures len == pos + |EncodeRange(r)| <= report.Length
      ensures report[..len] == old(report[..pos]) + EncodeRange(r)
    {
      len := pos;
      report[len] := start;
      if end != -1 {
        report[len] := report[len] + RANGE_FLAG;
        len := len + 1;
        report[len] := end;
      }
      len := len + 1;
    }

    /** Writes the ranges, in order, into `report` as far as `limit` allows; `m` of them fit. */
    method GetLossArray(report: array<int>, limit: int) returns (len: int, ghost m: int)
      requires Valid() && limit <= report.Length
      requires report != data1 && report != data2 && report != next && report != prior
      modifies report
      ensures 0 <= m <= |nodes| && 0 <= len <= report.Length && report[..len] == Encode(nodes[..m])
      ensures (m == |nodes| || len >= limit - 1) && (m > 0 ==> |Encode(nodes[..m - 1])| < limit - 1)
    {
      hide Ordered, Narrow, Stored, Linked, Members, Total;
      len, m := 0, 0;
      var i := head;
      if |nodes| > 0 { ReadNode(0); }
      while len < limit - 1 && i != -1
        invariant 0 <= m <= |nodes| && i == if m < |nodes| then Loc(size, anchor, nodes[m].lo) else -1
        invariant Valid() && 0 <= len <= report.Length && report[..len] == Encode(nodes[..m])
        invariant m > 0 ==> |Encode(nodes[..m - 1])| < limit - 1
        decreases |nodes| - m
      {
        ReadNode(m);
        EncodeNext(nodes, m);
        len := WriteRange(report, len, data1[i], data2[i], nodes[m]);
        i := next[i];
        m := m + 1;
      }
    }
  }

  /** Three lost numbers around the wrap; removing them as a range leaves 0x7FFFFFFF. */
  method GreatestStays() returns (list: RcvLossList)
    ensures list.Valid() && list.Contents() == {MAX_SEQ_NO}
  {
    hide RcvLossList.Valid, RcvLossList.Contents;
    list := new RcvLossList(8);
    list.Insert(MAX_SEQ_NO - 1, 0, MAX_SEQ_NO - 1, MODULUS);
    list.RemoveRange(MAX_SEQ_NO - 1, 0, MAX_SEQ_NO - 1, MODULUS);
    assert Span(MAX_SEQ_NO - 1, MODULUS) == {MAX_SEQ_NO - 1, MAX_SEQ_NO, MODULUS};
    assert list.Contents() == {MAX_SEQ_NO};
  }

  /** A 32-bit counter plus one, supposing that it wraps; C++ leaves this undefined. */
  function Incremented(i: int): int {
    if i == INT32_MAX then INT32_MIN else i + 1
  }

  /** The loop that counts up while `i <= last` is still running after `k` rounds. */
  predicate Running(i: int, last: int, k: nat)
    decreases k
  {
    i <= last && (k == 0 || Running(Incremented(i), last, k - 1))
  }

  lemma {:induction false} CountsUp(i: int, last: int, k: nat)
    requires i <= last < INT32_MAX
    ensures Running(i, last, k) <==> k <= last - i
    decreases k
  {
    if k > 0 && i < last {
      CountsUp(i + 1, last, k - 1);
    }
  }

  lemma {:induction false} CountsRound(i: int, k: nat)
    requires INT32_MIN <= i <= INT32_MAX
    ensures Running(i, INT32_MAX, k)
    decreases k
  {
    if k > 0 {
      CountsRound(Incremented(i), k - 1);
    }
  }

  lemma NeverEnds(first: SeqNum)
    ensures forall k: nat :: Running(first, MAX_SEQ_NO, k)
  {
    forall k: nat ensures Running(first, MAX_SEQ_NO, k) {
      CountsRound(first, k);
    }
  }

  lemma EndsAfter(first: SeqNum, last: SeqNum)
    requires first <= last < MAX_SEQ_NO
    ensures forall k: nat :: Running(first, last, k) <==> k < last - first + 1
    ensures exists k: nat :: !Running(first, last, k)
  {
    forall k: nat ensures Running(first, last, k) <==> k < last - first + 1 {
      CountsUp(first, last, k);
    }
    var n: nat := last - first + 1;
    assert !Running(first, last, n);
  }

  /** The loop from `first` up to `last` ends, after as many rounds as there are numbers, except
      when `last` is 0x7FFFFFFF: then it never does. */
  lemma LoopEndsExactly(first: SeqNum, last: SeqNum)
    requires first <= last
    ensures (forall k: nat :: Running(first, last, k)) <==> last == MAX_SEQ_NO
    ensures last != MAX_SEQ_NO ==> forall k: nat :: Running(first, last, k) <==> k < last - first + 1
  {
    if last == MAX_SEQ_NO {
      NeverEnds(first);
    } else {
      EndsAfter(first, last);
    }
  }
}
