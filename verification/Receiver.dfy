/** The receiving half of a connection as the code keeps it: 31-bit sequence numbers, the
    receive buffer, the loss list and the acknowledgement history.  Each method is one of the
    steps of `ReceiverModel`, on stream positions that lie close enough together for the
    wrapped numbers to tell them apart. */
module Receiver {
  import opened SeqNo
  import opened Bytes
  import opened LossNodes
  import opened LossReport
  import opened RcvBuffer
  import opened RcvLossList
  import opened AckWindow
  import opened SenderModel
  import opened ReceiverModel

  ghost function WrapRec(r: AckRec): AckRec {
    AckRec(Wrap(r.seqno), Wrap(r.ack))
  }

  ghost function WrapAll(h: seq<AckRec>): seq<AckRec> {
    seq(|h|, i requires 0 <= i < |h| => WrapRec(h[i]))
  }

  /** Records carry consecutive numbers, the last of them `latest`. */
  ghost predicate Consecutive(h: seq<AckRec>, latest: int) {
    forall i :: 0 <= i < |h| ==> h[i].seqno == latest - |h| + 1 + i
  }

  lemma WrapStore(h: seq<AckRec>, cap: int, r: AckRec)
    requires cap >= 0 && |h| <= cap && Consecutive(h, r.seqno - 1)
    ensures WrapAll(Store(h, cap, r)) == Store(WrapAll(h), cap, WrapRec(r))
    ensures Consecutive(Store(h, cap, r), r.seqno)
  {
  }

  /** Numbers close to each other are found wrapped as they are found unwrapped. */
  lemma {:induction false} WrapTake(h: seq<AckRec>, latest: int, n: int)
    requires Consecutive(h, latest) && |h| < SEQ_NO_TH && -SEQ_NO_TH < n - latest < SEQ_NO_TH
    ensures var (rest, found) := TakeRecord(h, n);
            var (rest', found') := TakeRecord(WrapAll(h), Wrap(n));
            && rest' == WrapAll(rest) && Consecutive(rest, latest) && |rest| <= |h|
            && found' == match found case None => None case Some(a) => Some(Wrap(a))
  {
    if |h| > 0 {
      var d := h[0].seqno;
      if d <= n { WrapDiff(d, n); } else { WrapDiff(n, d); }
      assert WrapAll(h)[1..] == WrapAll(h[1..]);
      if d != n { WrapTake(h[1..], latest, n); }
    }
  }

  class Receiver {
    var rcvLastAck: SeqNum
    var rcvLastAckAck: SeqNum
    var rcvCurrSeqNo: CurrNum
    var ackSeqNo: SeqNum
    const rcvBuffer: RcvBuffer
    const rcvLossList: RcvLossList
    const ackWindow: AckWindow

    ghost var st: Rcv // the abstract value

    ghost predicate Valid()
      reads this, rcvBuffer, rcvBuffer.unit
      reads rcvLossList, rcvLossList.data1, rcvLossList.data2, rcvLossList.next, rcvLossList.prior
      reads ackWindow, ackWindow.ackSeqNo, ackWindow.ack
    {
      RcvOk(st) && Linked()
    }

    ghost predicate ListsApart()
      reads {}
    {
      {rcvLossList.data1, rcvLossList.data2, rcvLossList.next, rcvLossList.prior} !!
      {ackWindow.ackSeqNo, ackWindow.ack}
    }

    /** The fields represent the abstract value; the loss list has room for the whole ring. */
    ghost predicate Linked()
      reads this, rcvBuffer, rcvBuffer.unit
      reads rcvLossList, rcvLossList.data1, rcvLossList.data2, rcvLossList.next, rcvLossList.prior
      reads ackWindow, ackWindow.ackSeqNo, ackWindow.ack
    {
      && rcvLastAck == Wrap(st.buf.ack) && rcvLastAckAck == Wrap(st.lastAckAck)
      && st.curr >= -1 && rcvCurrSeqNo == Curr(st.curr) && ackSeqNo == Wrap(st.ackSeqNo)
      && rcvBuffer.Valid() && rcvBuffer.buf == st.buf
      && rcvLossList.Valid() && rcvLossList.Contents() == st.loss && st.buf.size <= rcvLossList.size
      && ListsApart()
      && ackWindow.Valid() && ackWindow.size < SEQ_NO_TH
      && ackWindow.history == WrapAll(st.acks) && Consecutive(st.acks, st.ackSeqNo)
    }

    /** The connection starts with sequence number `isn`.  The buffer must not exceed the flight
        flag size. */
    constructor (isn: SeqNum, bufSize: int, flightFlagSize: int)
      requires 2 <= bufSize <= flightFlagSize < SEQ_NO_TH
      ensures Valid() && st == InitRcv(isn, bufSize) && ackWindow.size == 1024
      ensures fresh(rcvLossList) && fresh(rcvLossList.data1) && fresh(rcvLossList.data2)
      ensures fresh(rcvLossList.next) && fresh(rcvLossList.prior) && fresh(ackWindow.ackSeqNo) && fresh(ackWindow.ack)
      ensures fresh(rcvBuffer) && fresh(rcvBuffer.unit) && fresh(ackWindow)
    {
      InitRcvOk(isn, bufSize);
      rcvLastAck, rcvLastAckAck, rcvCurrSeqNo, ackSeqNo := isn, isn, isn - 1, 0;
      rcvBuffer := new RcvBuffer(bufSize, isn);
      rcvLossList := new RcvLossList(flightFlagSize);
      ackWindow := new AckWindow(1024);
      st := InitRcv(isn, bufSize);
      new;
      hide RcvLossList.Valid, RcvLossList.Contents, AckWindow.Valid, RcvBuffer.Valid, RcvOk, Valid, Linked;
      Begins(isn, bufSize);
    }

    lemma Begins(isn: SeqNum, bufSize: int)
      requires st == InitRcv(isn, bufSize) && RcvOk(st) && bufSize <= rcvLossList.size
      requires rcvLastAck == rcvLastAckAck == isn && rcvCurrSeqNo == isn - 1 && ackSeqNo == 0
      requires rcvBuffer.Valid() && rcvBuffer.buf == st.buf && rcvLossList.Valid() && rcvLossList.Contents() == {}
      requires ackWindow.Valid() && ackWindow.size == 1024 && ackWindow.history == []
      requires ListsApart()
      ensures Valid()
    {
      hide RcvLossList.Valid, RcvLossList.Contents, AckWindow.Valid, RcvBuffer.Valid, RcvOk;
    }

    /** The application reads up to `n` bytes. */
    method Recv(n: int) returns (data: seq<Byte>)
      requires Valid()
      modifies this`st, rcvBuffer, rcvBuffer.unit
      ensures Valid() && st == ReadBytes(old(st), n).0 && data == ReadBytes(old(st), n).1
    {
      hide RcvLossList.Valid, AckWindow.Valid, RcvBuffer.Holds;
      ReadBytesOk(st, n);
      data := rcvBuffer.ReadBuffer(n);
      st := ReadBytes(st, n).0;
    }

    /** A data packet arrives.  `report` is the loss report to send back, if it is not empty. */
    method OnData(seqno: SeqNum, data: Payload, ghost x: int) returns (report: seq<int>)
      requires Valid() && seqno == Wrap(x)
      requires -SEQ_NO_TH < x - st.buf.ack < SEQ_NO_TH && -SEQ_NO_TH < x - st.curr - 1 && x - st.curr < SEQ_NO_TH
      modifies this, rcvBuffer, rcvBuffer.unit
      modifies rcvLossList, rcvLossList.data1, rcvLossList.data2, rcvLossList.next, rcvLossList.prior
      ensures Valid() && st == Arrive(old(st), x, data).0
      ensures report == match Arrive(old(st), x, data).1 case None => [] case Some(r) => EncodeRange(r)
    {
      hide RcvLossList.Valid, RcvLossList.Contents, AckWindow.Valid, RcvBuffer.Holds, RcvOk, BufOk;
      report := [];
      SeqOffIsDistance(st.buf.ack, x);
      ArriveOk(st, x, data);
      RcvBounds(st);
      rcvLossList.SizeOk();
      var offset := SeqOff(rcvLastAck, seqno);
      if offset < 0 || offset >= rcvBuffer.GetAvailBufSize() {
        return;
      }
      var added := rcvBuffer.AddData(data, offset);
      if !added {
        return;
      }
      st := st.(buf := rcvBuffer.buf);
      report := NoteArrival(seqno, x);
    }

    /** The bookkeeping for a packet that has been stored: positions it skipped are lost, and
        it is not lost itself. */
    method NoteArrival(seqno: SeqNum, ghost x: int) returns (report: seq<int>)
      requires Linked() && seqno == Wrap(x) && -SEQ_NO_TH < x - st.curr - 1 && x - st.curr < SEQ_NO_TH
      requires st.buf.ack <= x && x - st.buf.ack < st.buf.size && st.buf.ack <= st.curr + 1
      requires forall y :: y in st.loss ==> st.buf.ack <= y <= st.curr && -SEQ_NO_TH < x - y
      modifies this
      modifies rcvLossList, rcvLossList.data1, rcvLossList.data2, rcvLossList.next, rcvLossList.prior
      ensures Linked()
      ensures st == if x > old(st).curr + 1
                    then old(st).(loss := old(st).loss + Span(old(st).curr + 1, x - 1), curr := x)
                    else if x > old(st).curr then old(st).(curr := x)
                    else old(st).(loss := old(st).loss - {x})
      ensures report == if x > old(st).curr + 1 then EncodeRange(Range(old(st).curr + 1, x - 1)) else []
    {
      hide RcvLossList.Valid, RcvLossList.Contents, AckWindow.Valid, RcvBuffer.Holds, Span;
      rcvLossList.SizeOk();
      CurrActs(st.curr, x);
      IncWraps(x - 1);
      SeqCmpIsOrder(x, st.curr + 1);
      report := [];
      if SeqCmp(seqno, IncSeq(rcvCurrSeqNo)) > 0 {
        SeqCmpIsOrder(st.curr + 1, x - 1);
        rcvLossList.Insert(IncSeq(rcvCurrSeqNo), DecSeq(seqno), st.curr + 1, x - 1);
        report := if IncSeq(rcvCurrSeqNo) == DecSeq(seqno) then [DecSeq(seqno)]
                  else [IncSeq(rcvCurrSeqNo) + RANGE_FLAG, DecSeq(seqno)];
        st := st.(loss := st.loss + Span(st.curr + 1, x - 1));
      }
      if SeqCmp(seqno, rcvCurrSeqNo) > 0 {
        rcvCurrSeqNo := seqno;
        st := st.(curr := x);
      } else {
        var found := rcvLossList.Remove(seqno, x);
        st := st.(loss := st.loss - {x});
      }
    }

    /** The number below which everything has arrived. */
    method FirstMissing() returns (ack: SeqNum)
      requires Valid()
      ensures ack == Wrap(NextAck(st))
    {
      hide RcvLossList.Valid, RcvLossList.Contents, AckWindow.Valid, RcvBuffer.Holds;
      CurrActs(st.curr, st.curr);
      NothingLost(st.loss);
      if rcvLossList.GetLossLength() == 0 {
        ack := IncSeq(rcvCurrSeqNo);
      } else {
        MinIs(st.loss, rcvLossList.First());
        ack := rcvLossList.GetFirstLostSeq();
      }
    }

    static lemma NothingLost(loss: set<int>)
      ensures |loss| == 0 <==> loss == {}
    {
    }

    /** The number to send in a lite acknowledgement, if one is due. */
    method MakeLiteAck() returns (ack: Option<SeqNum>)
      requires Valid()
      ensures ack == match SendLiteAck(st) case None => None case Some(a) => Some(Wrap(a))
    {
      hide RcvLossList.Valid, RcvLossList.Contents, AckWindow.Valid, RcvBuffer.Holds;
      var a := FirstMissing();
      if a == rcvLastAckAck {
        return None;
      }
      ack := Some(a);
    }

    /** A full acknowledgement, if one is due: its number, the position it carries and the
        window.  `quiet` says that the last one is too recent to be repeated. */
    method MakeAck(quiet: bool) returns (ack: Option<(SeqNum, SeqNum, int)>)
      requires Valid()
      modifies this, rcvBuffer, ackWindow, ackWindow.ackSeqNo, ackWindow.ack
      ensures Valid() && st == SendAck(old(st), quiet, ackWindow.size - 1).0
      ensures ack == match SendAck(old(st), quiet, ackWindow.size - 1).1
                     case None => None
                     case Some((a, window)) => Some((Wrap(st.ackSeqNo), Wrap(a), window))
    {
      hide RcvLossList.Valid, RcvLossList.Contents, AckWindow.Valid, RcvBuffer.Holds, RcvOk, BufOk, NextAck;
      NextAckIsFirstGap(st);
      SendAckOk(st, quiet, ackWindow.size - 1);
      rcvLossList.SizeOk();
      RcvBounds(st);
      ghost var next := NextAck(st);
      SeqCmpIsOrder(next, st.buf.ack);
      SeqOffIsDistance(st.buf.ack, next);
      var a := FirstMissing();
      if a == rcvLastAckAck {
        return None;
      }
      if SeqCmp(a, rcvLastAck) > 0 {
        var acksize := SeqOff(rcvLastAck, a);
        rcvLastAck := a;
        rcvBuffer.AckData(acksize);
        st := st.(buf := rcvBuffer.buf);
      } else if a == rcvLastAck {
        if quiet {
          return None;
        }
      } else {
        return None;
      }
      ack := None;
      if SeqCmp(rcvLastAck, rcvLastAckAck) > 0 {
        var r := Announce();
        ack := Some(r);
      }
    }

    /** Numbers, dates and records the acknowledgement of everything readable. */
    method Announce() returns (r: (SeqNum, SeqNum, int))
      requires Linked()
      modifies this`ackSeqNo, this`st, ackWindow, ackWindow.ackSeqNo, ackWindow.ack
      ensures Linked()
      ensures st == old(st).(ackSeqNo := old(st).ackSeqNo + 1,
                             acks := Store(old(st).acks, ackWindow.size - 1,
                                           AckRec(old(st).ackSeqNo + 1, old(st).buf.ack)))
      ensures r == (Wrap(st.ackSeqNo), Wrap(st.buf.ack), MaxInt(AvailSize(st.buf), 2))
    {
      hide RcvLossList.Valid, RcvLossList.Contents, RcvBuffer.Holds, Store, WrapAll, Consecutive;
      IncWraps(st.ackSeqNo);
      HistoryFits();
      WrapStore(st.acks, ackWindow.size - 1, AckRec(st.ackSeqNo + 1, st.buf.ack));
      ackSeqNo := IncSeq(ackSeqNo);
      var window := rcvBuffer.GetAvailBufSize();
      // a minimum window of 2, even if the buffer is full, breaks a potential deadlock
      if window < 2 {
        window := 2;
      }
      r := (ackSeqNo, rcvLastAck, window);
      ackWindow.StoreAck(ackSeqNo, rcvLastAck);
      st := st.(ackSeqNo := st.ackSeqNo + 1,
                acks := Store(st.acks, ackWindow.size - 1, AckRec(st.ackSeqNo + 1, st.buf.ack)));
    }

    lemma HistoryFits()
      requires Linked()
      ensures |st.acks| <= ackWindow.size - 1
    {
      assert |WrapAll(st.acks)| == |st.acks|;
    }

    /** The peer confirms acknowledgement number `ackno`; `late` says that no time has passed
        since it was sent. */
    method OnAck2(ackno: SeqNum, late: bool, ghost n: int)
      requires Valid() && ackno == Wrap(n) && -SEQ_NO_TH < n - st.ackSeqNo < SEQ_NO_TH
      modifies this, ackWindow, ackWindow.ackSeqNo
      ensures Valid() && st == ReceiverModel.OnAck2(old(st), n, late)
    {
      hide RcvLossList.Valid, RcvLossList.Contents, AckWindow.Valid, RcvBuffer.Holds, WrapAll, Consecutive, TakeRecord;
      HistoryFits();
      OnAck2Ok(st, n, late);
      WrapTake(st.acks, st.ackSeqNo, n);
      ghost var taken, confirmed := TakeRecord(st.acks, n).1, st.lastAckAck;
      var found := ackWindow.AcknowledgeAck(ackno);
      assert found.Some? ==> taken.Some? && found.value == Wrap(taken.value) && rcvLastAckAck == Wrap(confirmed);
      st := ReceiverModel.OnAck2(st, n, late);
      if found.None? || late {
        return;
      }
      if SeqCmp(found.value, rcvLastAckAck) > 0 {
        rcvLastAckAck := found.value;
      }
    }
  }
}
