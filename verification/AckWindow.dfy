/** The history of sent acknowledgements: which data position each of the last few carried. */
module AckWindow {
  import opened Bytes
  import opened Ring

  datatype AckRec = AckRec(seqno: int, ack: int)

  /** The history after one more entry, when it may hold at most `cap`: the oldest gives way. */
  function Store(h: seq<AckRec>, cap: int, r: AckRec): seq<AckRec> {
    if |h| >= cap then (h + [r])[1..] else h + [r]
  }

  /** The history after storing `rs`, in this order, into an empty one. */
  function StoreAll(cap: int, rs: seq<AckRec>): seq<AckRec>
    decreases |rs|
  {
    if rs == [] then [] else Store(StoreAll(cap, rs[..|rs| - 1]), cap, rs[|rs| - 1])
  }

  lemma {:induction false} LastStay(cap: nat, rs: seq<AckRec>)
    ensures StoreAll(cap, rs) == if |rs| <= cap then rs else rs[|rs| - cap..]
    decreases |rs|
  {
    if rs != [] {
      var front, last := rs[..|rs| - 1], rs[|rs| - 1];
      LastStay(cap, front);
      assert rs == front + [last];
    }
  }

  /** After any stores, of different numbers, exactly the last ones, as many as there is room for,
      are remembered, each with the position stored with it. */
  lemma Remembered(cap: nat, rs: seq<AckRec>, i: nat)
    requires i < |rs| && forall j, k :: 0 <= j < k < |rs| ==> rs[j].seqno != rs[k].seqno
    ensures TakeRecord(StoreAll(cap, rs), rs[i].seqno).1 == if i >= |rs| - cap then Some(rs[i].ack) else None
  {
    LastStay(cap, rs);
    var h := StoreAll(cap, rs);
    hide TakeRecord, StoreAll;
    var gone := |rs| - |h|;
    assert forall j :: 0 <= j < |h| ==> h[j] == rs[gone + j];
    TakeRecordSkips(h, rs[i].seqno, if i >= gone then i - gone else |h|);
  }

  /** The oldest entry with number `seqno`, if any, leaves with everything before it. */
  function TakeRecord(h: seq<AckRec>, seqno: int): (seq<AckRec>, Option<int>) {
    if |h| == 0 then (h, None)
    else if h[0].seqno == seqno then (h[1..], Some(h[0].ack))
    else
      var (rest, found) := TakeRecord(h[1..], seqno);
      if found.None? then (h, None) else (rest, found)
  }

  /** What is reported was stored, and what remains is the part behind it. */
  lemma {:induction false} TakeRecordSpec(h: seq<AckRec>, seqno: int)
    ensures var (rest, found) := TakeRecord(h, seqno);
            if found.Some? then
              exists i :: 0 <= i < |h| && h[i] == AckRec(seqno, found.value) && rest == h[i + 1..] &&
                          forall j :: 0 <= j < i ==> h[j].seqno != seqno
            else rest == h && forall j :: 0 <= j < |h| ==> h[j].seqno != seqno
  {
    if |h| > 0 && h[0].seqno != seqno {
      TakeRecordSpec(h[1..], seqno);
      var (rest, found) := TakeRecord(h[1..], seqno);
      if found.Some? {
        var i :| 0 <= i < |h[1..]| && h[1..][i] == AckRec(seqno, found.value) && rest == h[1..][i + 1..] &&
                 forall j :: 0 <= j < i ==> h[1..][j].seqno != seqno;
        assert h[i + 1] == AckRec(seqno, found.value) && h[1..][i + 1..] == h[i + 2..];
        assert forall j :: 0 < j < i + 1 ==> h[j] == h[1..][j - 1];
      } else {
        assert forall j :: 0 < j < |h| ==> h[j] == h[1..][j - 1];
      }
    }
  }

  lemma {:induction false} TakeRecordSkips(h: seq<AckRec>, seqno: int, i: int)
    requires 0 <= i <= |h| && forall j :: 0 <= j < i ==> h[j].seqno != seqno
    ensures i == |h| ==> TakeRecord(h, seqno) == (h, None)
    ensures i < |h| && h[i].seqno == seqno ==> TakeRecord(h, seqno) == (h[i + 1..], Some(h[i].ack))
  {
    if i > 0 {
      assert forall j :: 0 <= j < i - 1 ==> h[1..][j] == h[j + 1];
      TakeRecordSkips(h[1..], seqno, i - 1);
      if i < |h| { assert h[1..][i..] == h[i + 1..]; }
    }
  }

  class AckWindow {
    const size: int
    const ackSeqNo: array<int>
    const ack: array<int>
    var head: int // the slot behind the latest entry
    var tail: int // the oldest entry

    ghost var anchor: int // the position whose slot is 0
    ghost var first: int  // the position of the oldest entry
    ghost var history: seq<AckRec>

    ghost predicate Valid()
      reads this, ackSeqNo, ack
    {
      && 0 < size == ackSeqNo.Length == ack.Length && ackSeqNo != ack
      && |history| < size
      && tail == Loc(size, anchor, first) && head == Loc(size, anchor, first + |history|)
      && forall i :: 0 <= i < |history| ==> Entry(first + i, history[i])
    }

    ghost predicate Entry(x: int, r: AckRec)
      requires 0 < size == ackSeqNo.Length == ack.Length
      reads this, ackSeqNo, ack
    {
      r == AckRec(ackSeqNo[Loc(size, anchor, x)], ack[Loc(size, anchor, x)])
    }

    constructor (size: int)
      requires size > 0
      ensures Valid() && history == [] && this.size == size && fresh(ackSeqNo) && fresh(ack)
    {
      this.size := size;
      ackSeqNo := new int[size](_ => -1);
      ack := new int[size];
      head, tail := 0, 0;
      anchor, first, history := 0, 0, [];
    }

    method SlotBehind(slot: int, ghost x: int) returns (r: int)
      requires 0 < size && slot == Loc(size, anchor, x)
      ensures r == Loc(size, anchor, x + 1)
    {
      LocStep(size, anchor, x, 1);
      r := (slot + 1) % size;
    }

    /** Records that acknowledgement `seqno` carried `a`, overwriting the oldest entry if
        there is no room. */
    method StoreAck(seqno: int, a: int)
      requires Valid()
      modifies this, ackSeqNo, ack
      ensures Valid() && history == Store(old(history), size - 1, AckRec(seqno, a))
    {
      hide Loc;
      ghost var n, h := |history|, history + [AckRec(seqno, a)];
      ackSeqNo[head] := seqno;
      ack[head] := a;
      forall i | 0 <= i <= n
        ensures Entry(first + i, h[i])
      {
        if i < n {
          assert old(Entry(first + i, history[i]));
          LocInjective(size, anchor, first + i, first + n);
        }
      }
      head := SlotBehind(head, first + n);
      if n + 1 < size { LocInjective(size, anchor, first, first + n + 1); } else { LocWraps(size, anchor, first); }
      if head == tail {
        tail := SlotBehind(tail, first);
        first, history := first + 1, h[1..];
        forall i | 0 <= i < n
          ensures Entry(first + i, history[i])
        {
          assert Entry(old(first) + (i + 1), h[i + 1]);
        }
      } else {
        history := h;
      }
    }

    /** Drops the `k` oldest entries, the last of which is in `slot`. */
    method DropTo(slot: int, ghost k: int)
      requires Valid() && 0 < k <= |history| && slot == Loc(size, anchor, first + k - 1)
      modifies this
      ensures Valid() && history == old(history)[k..]
    {
      tail := SlotBehind(slot, first + k - 1);
      ghost var h := history;
      first, history := first + k, history[k..];
      forall i | 0 <= i < |history|
        ensures Entry(first + i, history[i])
      {
        assert Entry(old(first) + (k + i), h[k + i]);
      }
    }

    method Clear()
      requires Valid()
      modifies this, ackSeqNo
      ensures Valid() && history == []
    {
      tail, head := 0, 0;
      ackSeqNo[0] := -1;
      anchor, first, history := 0, 0, [];
    }

    /** The data position acknowledgement `seqno` carried, if it is still on record. */
    method AcknowledgeAck(seqno: int) returns (found: Option<int>)
      requires Valid()
      modifies this, ackSeqNo
      ensures Valid() && history == TakeRecord(old(history), seqno).0 && found == TakeRecord(old(history), seqno).1
    {
      if head >= tail {
        found := ScanStraight(seqno);
      } else {
        found := ScanRound(seqno);
      }
    }

    /** The entries lie in one run of slots. */
    method ScanStraight(seqno: int) returns (found: Option<int>)
      requires Valid() && head >= tail
      modifies this, ackSeqNo
      ensures Valid() && history == TakeRecord(old(history), seqno).0 && found == TakeRecord(old(history), seqno).1
    {
      hide TakeRecord, Loc;
      ghost var n := |history|;
      LocAhead(size, anchor, first, n);
      var i := tail;
      while i < head
        invariant tail <= i <= head && unchanged(this) && unchanged(ackSeqNo)
        invariant forall j :: 0 <= j < i - tail ==> history[j].seqno != seqno
      {
        ghost var k := i - tail;
        LocAhead(size, anchor, first, k);
        TakeRecordSkips(history, seqno, k);
        assert Entry(first + k, history[k]);
        if seqno == ackSeqNo[i] {
          found := Some(ack[i]);
          if i + 1 == head {
            Clear();
            assert old(history)[k + 1..] == [];
          } else {
            DropTo(i, k + 1);
          }
          return;
        }
        i := i + 1;
      }
      TakeRecordSkips(history, seqno, n);
      return None;
    }

    /** They go on at slot 0. */
    method ScanRound(seqno: int) returns (found: Option<int>)
      requires Valid() && head < tail
      modifies this
      ensures Valid() && history == TakeRecord(old(history), seqno).0 && found == TakeRecord(old(history), seqno).1
    {
      hide TakeRecord, Loc;
      ghost var n := |history|;
      LocAhead(size, anchor, first, n);
      var j := tail;
      var m := head + size;
      while j < m
        invariant tail <= j <= m && unchanged(this)
        invariant forall i :: 0 <= i < j - tail ==> history[i].seqno != seqno
      {
        ghost var k := j - tail;
        LocStep(size, anchor, first, k);
        TakeRecordSkips(history, seqno, k);
        assert Entry(first + k, history[k]);
        var slot := j % size;
        if seqno == ackSeqNo[slot] {
          found := Some(ack[slot]);
          // `slot` is never `head` here: only the slots in use are scanned
          DropTo(slot, k + 1);
          return;
        }
        j := j + 1;
      }
      TakeRecordSkips(history, seqno, n);
      return None;
    }
  }
}
