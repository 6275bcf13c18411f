/** The sending half of a connection as the code keeps it: 31-bit sequence numbers, the send
    buffer and the loss list.  Each method is one of the steps of `SenderModel`, on stream
    positions that lie close enough together for the wrapped numbers to tell them apart. */
module Sender {
  import opened SeqNo
  import opened Bytes
  import opened LossNodes
  import opened LossReport
  import opened SndBuffer
  import opened SndLossList
  import opened SenderModel

  class Sender {
    var sndLastAck: SeqNum
    var sndLastDataAck: SeqNum
    var sndCurrSeqNo: CurrNum
    var flowWindowSize: int
    var broken: bool
    const sndBuffer: SndBuffer
    const sndLossList: SndLossList

    ghost const w: int // the window negotiated when the connection was set up
    ghost var st: Snd  // the abstract value

    ghost predicate Valid()
      reads this, sndBuffer, sndBuffer.ring
      reads sndLossList, sndLossList.data1, sndLossList.data2, sndLossList.next
    {
      SndOk(st, w) && Linked()
    }

    /** The fields represent the abstract value. */
    ghost predicate Linked()
      reads this, sndBuffer, sndBuffer.ring
      reads sndLossList, sndLossList.data1, sndLossList.data2, sndLossList.next
    {
      && 0 < w && 2 * w < SEQ_NO_TH && 0 <= st.dataAck <= st.ack <= st.curr + 1
      && sndLastAck == Wrap(st.ack) && sndLastDataAck == Wrap(st.dataAck) && sndCurrSeqNo == Curr(st.curr)
      && flowWindowSize == st.window && broken == st.broken
      && sndBuffer.Valid() && sndBuffer.Contents() == st.blocks && sndBuffer.curr == st.sent
      && sndLossList.Valid() && sndLossList.size == 2 * w && sndLossList.Contents() == st.loss
    }

    /** The connection starts with sequence number `isn`. */
    constructor (isn: SeqNum, window: int, mss: int)
      requires 0 < window && 2 * window < SEQ_NO_TH && mss > 0
      ensures Valid() && st == InitSnd(isn, window) && w == window && sndBuffer.mss == mss
      ensures fresh(sndLossList) && fresh(sndLossList.data1) && fresh(sndLossList.data2) && fresh(sndLossList.next)
      ensures fresh(sndBuffer) && fresh(sndBuffer.Blocks())
    {
      sndLastAck, sndLastDataAck, sndCurrSeqNo := isn, isn, isn - 1;
      flowWindowSize, broken := window, false;
      sndBuffer := new SndBuffer(32, mss);
      sndLossList := new SndLossList(window * 2);
      w, st := window, InitSnd(isn, window);
    }

    /** Hands `data` to the send buffer. */
    method Send(data: seq<Byte>)
      requires Valid()
      modifies this, sndBuffer, sndBuffer.ring
      ensures Valid() && st == Submit(old(st), Chunks(data, sndBuffer.mss))
      ensures fresh(sndBuffer.Blocks() - old(sndBuffer.Blocks()))
    {
      hide SndLossList.Inv, SndBuffer.Valid, SndBuffer.Contents;
      sndBuffer.AddBuffer(data);
      st := Submit(st, Chunks(data, sndBuffer.mss));
    }

    // -------------------------------------------------------------- packData

    /** First half of a retransmission: the least lost number leaves the list. */
    method TakeLostSeq() returns (seqno: int)
      requires Valid()
      modifies this, sndLossList, sndLossList.data1, sndLossList.data2, sndLossList.next
      ensures Valid() && st == TakeLost(old(st)).0
      ensures seqno == match TakeLost(old(st)).1 case None => -1 case Some(x) => Wrap(x)
    {
      hide SndLossList.Inv, SndBuffer.Valid, SndBuffer.Contents;
      seqno := sndLossList.GetLostSeq();
      if st.loss != {} {
        ghost var x :| IsMin(st.loss, x) && seqno == Wrap(x) && sndLossList.Contents() == st.loss - {x};
        MinIs(st.loss, x);
      }
      st := TakeLost(st).0;
    }

    /** Second half, under the lock that acknowledgements take: by now the number may have been
        acknowledged. */
    method LookUpLost(seqno: SeqNum, ghost x: int) returns (payload: Option<Payload>)
      requires Valid() && seqno == Wrap(x) && x <= st.curr && x - st.dataAck > -SEQ_NO_TH
      ensures x - st.dataAck < |st.blocks| && payload == LookUp(st, x)
    {
      hide SndLossList.Inv, SndBuffer.Valid, SndBuffer.Contents;
      SeqOffIsDistance(st.dataAck, x);
      var offset := SeqOff(sndLastDataAck, seqno);
      if offset < 0 {
        return None;
      }
      var data := sndBuffer.ReadDataAt(offset);
      payload := Some(data);
    }

    /** A packet that has never been sent, within the flow and the congestion window. */
    method PackNew(congestion: int) returns (payload: Option<Payload>)
      requires Valid()
      modifies this, sndBuffer`currBlock, sndBuffer`curr
      ensures Valid() && st == SendNew(old(st), congestion).0 && payload == SendNew(old(st), congestion).1
    {
      hide SndLossList.Inv, SndBuffer.Valid, SndBuffer.Contents;
      CurrActs(st.curr, st.curr);
      SeqLenCounts(st.ack, st.curr + 1);
      var cwnd := if flowWindowSize < congestion then flowWindowSize else congestion;
      payload := None;
      if cwnd >= SeqLen(sndLastAck, IncSeq(sndCurrSeqNo)) {
        payload := sndBuffer.ReadData();
        if payload.Some? {
          sndCurrSeqNo := IncSeq(sndCurrSeqNo);
        }
      }
      st := SendNew(st, congestion).0;
    }

    // -------------------------------------------------------------- processCtrl

    /** A lite acknowledgement: everything below `a` has arrived. */
    method OnLiteAck(ack: SeqNum, ghost a: int)
      requires Valid() && ack == Wrap(a) && -SEQ_NO_TH < a - st.ack && a <= st.curr + 1
      modifies this
      ensures Valid() && st == LiteAck(old(st), a)
    {
      hide SndLossList.Inv, SndBuffer.Valid, SndBuffer.Contents;
      SeqCmpIsOrder(a, st.ack);
      SeqOffIsDistance(st.ack, a);
      if SeqCmp(ack, sndLastAck) >= 0 {
        flowWindowSize := flowWindowSize - SeqOff(sndLastAck, ack);
        sndLastAck := ack;
      }
      st := LiteAck(st, a);
    }

    /** A full acknowledgement, with the window the receiver advertises. */
    method OnAck(ack: SeqNum, window: int, ghost a: int)
      requires Valid() && ack == Wrap(a) && window <= w
      requires -SEQ_NO_TH < a - st.curr - 1 < SEQ_NO_TH && -SEQ_NO_TH < a - st.dataAck
      requires -SEQ_NO_TH < a - st.ack
      modifies this, sndBuffer
      modifies sndLossList, sndLossList.data1, sndLossList.data2, sndLossList.next
      ensures Valid() && st == FullAck(old(st), a, window)
      ensures sndBuffer.Blocks() == old(sndBuffer.Blocks())
    {
      hide SndLossList.Inv, SndBuffer.Valid, SndBuffer.Contents;
      CurrActs(st.curr, st.curr);
      SeqCmpIsOrder(a, st.curr + 1);
      FullAckOk(st, w, a, window);
      if SeqCmp(ack, IncSeq(sndCurrSeqNo)) > 0 {
        Break();
        return;
      }
      SeqOffIsDistance(st.dataAck, a);
      ghost var before := st;
      MoveEdge(ack, window, a);
      var offset := SeqOff(sndLastDataAck, ack);
      if offset > 0 {
        Release(ack, offset, a);
      }
      assert st == FullAck(before, a, window);
    }

    /** The left edge of the window moves up to the acknowledged position. */
    method MoveEdge(ack: SeqNum, window: int, ghost a: int)
      requires Linked() && ack == Wrap(a) && -SEQ_NO_TH < a - st.ack < SEQ_NO_TH && a <= st.curr + 1
      modifies `flowWindowSize, `sndLastAck, `st
      ensures Linked() && st == if a >= old(st).ack then old(st).(window := window, ack := a) else old(st)
    {
      hide SndLossList.Inv, SndBuffer.Valid, SndBuffer.Contents;
      SeqCmpIsOrder(a, st.ack);
      if SeqCmp(ack, sndLastAck) >= 0 {
        flowWindowSize := window;
        sndLastAck := ack;
        st := st.(window := window, ack := a);
      }
    }

    /** Drops the packets below the acknowledged position from the buffer and the loss list. */
    method Release(ack: SeqNum, offset: int, ghost a: int)
      requires Linked() && ack == Wrap(a) && st.dataAck < a <= st.ack
      requires offset == a - st.dataAck <= st.sent <= w && st.sent <= |st.blocks|
      requires forall x :: x in st.loss ==> st.dataAck <= x < st.dataAck + w
      modifies this, sndBuffer
      modifies sndLossList, sndLossList.data1, sndLossList.data2, sndLossList.next
      ensures Linked()
      ensures st == old(st).(blocks := old(st).blocks[offset..], sent := old(st).sent - offset, dataAck := a,
                             loss := set x | x in old(st).loss && x > a - 1)
      ensures sndBuffer.Blocks() == old(sndBuffer.Blocks())
    {
      hide SndLossList.Inv, SndBuffer.Valid, SndBuffer.Contents;
      sndBuffer.AckData(offset);
      sndLastDataAck := ack;
      IncWraps(a - 1);
      sndLossList.Remove(DecSeq(sndLastDataAck), a - 1);
      st := st.(blocks := st.blocks[offset..], sent := st.sent - offset, dataAck := a,
                loss := set x | x in st.loss && x > a - 1);
    }

    /** `r` lies close enough to the window for its sequence numbers to be told apart. */
    ghost predicate Comparable(r: Range)
      reads this
    {
      && -SEQ_NO_TH < r.hi - r.lo < SEQ_NO_TH
      && -SEQ_NO_TH < r.lo - st.ack < SEQ_NO_TH && -SEQ_NO_TH < r.hi - st.ack < SEQ_NO_TH
      && -SEQ_NO_TH < r.lo - st.curr < SEQ_NO_TH && -SEQ_NO_TH < r.hi - st.curr < SEQ_NO_TH
    }

    /** Everything from `a` to `b` is put on the loss list. */
    method InsertLoss(seqno1: SeqNum, seqno2: SeqNum, ghost a: int, ghost b: int)
      requires Valid() && seqno1 == Wrap(a) && seqno2 == Wrap(b) && st.ack <= a <= b <= st.curr
      modifies this`st, sndLossList, sndLossList.data1, sndLossList.data2, sndLossList.next
      ensures Valid() && st == old(st).(loss := old(st).loss + Span(a, b))
    {
      hide SndLossList.Inv, SndLossList.Contents, SndBuffer.Valid, SndBuffer.Contents, Span;
      var num := sndLossList.Insert(seqno1, seqno2, a, b);
      st := st.(loss := st.loss + Span(a, b));
    }

    /** A range of a loss report. */
    method NakRange(first: SeqNum, last: SeqNum, ghost r: Range) returns (secure: bool)
      requires Valid() && Comparable(r) && first == Wrap(r.lo) && last == Wrap(r.hi)
      modifies this`st, sndLossList, sndLossList.data1, sndLossList.data2, sndLossList.next
      ensures Valid() && st == old(st).(loss := st.loss)
      ensures (st.loss, secure) == NakOne(old(st).loss, st.ack, st.curr, r)
    {
      hide SndLossList.Inv, SndBuffer.Valid, SndBuffer.Contents;
      SeqCmpIsOrder(r.lo, r.hi);
      CurrActs(st.curr, r.hi);
      SeqCmpIsOrder(r.lo, st.ack);
      SeqCmpIsOrder(r.hi, st.ack);
      if SeqCmp(first, last) > 0 || SeqCmp(last, sndCurrSeqNo) > 0 {
        return false;
      }
      if SeqCmp(first, sndLastAck) >= 0 {
        InsertLoss(first, last, r.lo, r.hi);
      } else if SeqCmp(last, sndLastAck) >= 0 {
        InsertLoss(sndLastAck, last, st.ack, r.hi);
      }
      secure := true;
    }

    /** A single number of a loss report. */
    method NakSingle(seqno: SeqNum, ghost r: Range) returns (secure: bool)
      requires Valid() && Comparable(r) && r.lo == r.hi && seqno == Wrap(r.lo)
      modifies this`st, sndLossList, sndLossList.data1, sndLossList.data2, sndLossList.next
      ensures Valid() && st == old(st).(loss := st.loss)
      ensures (st.loss, secure) == NakOne(old(st).loss, st.ack, st.curr, r)
    {
      hide SndLossList.Inv, SndBuffer.Valid, SndBuffer.Contents;
      SeqCmpIsOrder(r.lo, st.ack);
      CurrActs(st.curr, r.lo);
      if SeqCmp(seqno, sndLastAck) >= 0 {
        if SeqCmp(seqno, sndCurrSeqNo) > 0 {
          return false;
        }
        InsertLoss(seqno, seqno, r.lo, r.lo);
      }
      secure := true;
    }

    /** A loss report: its words name the ends of the ranges `report`. */
    method OnNak(words: seq<int>, ghost report: seq<Range>)
      requires Valid() && Names(words, report)
      requires forall k :: 0 <= k < |report| ==> Comparable(report[k])
      modifies this, sndLossList, sndLossList.data1, sndLossList.data2, sndLossList.next
      ensures Valid() && st == Nak(old(st), report)
    {
      hide SndLossList.Inv, SndBuffer.Valid, SndBuffer.Contents, Names, Linked;
      var i := 0;
      ghost var rest, s0 := report, st;
      assert words[0..] == words;
      NakOk(st, w, report);
      while i < |words|
        invariant Valid() && 0 <= i <= |words| && Names(words[i..], rest)
        invariant forall k :: 0 <= k < |rest| ==> Comparable(rest[k])
        invariant st == s0.(loss := st.loss)
        invariant NakLoss(s0.loss, st.ack, st.curr, report) == NakLoss(st.loss, st.ack, st.curr, rest)
        decreases |words| - i
      {
        FirstEntry(words, i, rest);
        ghost var r := rest[0];
        var secure: bool;
        if words[i] >= RANGE_FLAG {
          secure := NakRange(words[i] - RANGE_FLAG, words[i + 1], r);
          i := i + 2;
        } else {
          OneNumber(r);
          secure := NakSingle(words[i], r);
          i := i + 1;
        }
        if !secure {
          Break();
          return;
        }
        rest := rest[1..];
      }
      NoEntries(words[i..], rest);
    }

    lemma OneNumber(r: Range)
      requires Comparable(r) && Wrap(r.lo) == Wrap(r.hi)
      ensures r.lo == r.hi
    {
      SeqCmpIsOrder(r.lo, r.hi);
    }

    static lemma NoEntries(words: seq<int>, rest: seq<Range>)
      requires |words| == 0 && Names(words, rest)
      ensures rest == []
    {
    }

    /** The peer cannot be trusted. */
    method Break()
      requires Valid()
      modifies `broken, `st
      ensures Valid() && st == old(st).(broken := true)
    {
      hide SndLossList.Inv, SndBuffer.Valid, SndBuffer.Contents;
      broken := true;
      st := st.(broken := true);
    }

    // -------------------------------------------------------------- checkTimers

    /** The expiration timer fires while data is unacknowledged. */
    method OnTimeout()
      requires Valid()
      modifies this`st, sndLossList, sndLossList.data1, sndLossList.data2, sndLossList.next
      ensures Valid() && st == Timeout(old(st))
    {
      hide SndLossList.Inv, SndBuffer.Valid, SndBuffer.Contents;
      CurrActs(st.curr, st.curr);
      SeqCmpIsOrder(st.curr + 1, st.ack);
      NothingLost(st.loss);
      if sndBuffer.GetCurrBufSize() > 0 {
        if IncSeq(sndCurrSeqNo) != sndLastAck && sndLossList.GetLossLength() == 0 {
          ghost var before := st;
          InsertLoss(sndLastAck, sndCurrSeqNo, st.ack, st.curr);
          assert st.loss == Span(st.ack, st.curr);
        }
      }
    }

    static lemma NothingLost(loss: set<int>)
      ensures |loss| == 0 <==> loss == {}
    {
    }
  }
}
