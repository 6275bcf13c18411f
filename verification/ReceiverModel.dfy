/** The receiving half of a connection as a value, in terms of unbounded stream positions:
    the steps of processData, of the ACK branch of sendCtrl and of the ACK2 branch of
    processCtrl. */
module ReceiverModel {
  import opened SeqNo
  import opened Bytes
  import opened LossNodes
  import opened RcvBuffer
  import opened AckWindow
  import opened SenderModel

  /** The last acknowledged position is `buf.ack`; `curr` is the greatest position received. */
  datatype Rcv = Rcv(buf: RcvBuf, curr: int, loss: set<int>, lastAckAck: int, acks: seq<AckRec>, ackSeqNo: int)

  function InitRcv(isn: int, size: int): Rcv {
    Rcv(RcvBuf(size, isn, isn, map[], 0), isn - 1, {}, isn, [], 0)
  }

  /** Every position from the acknowledged one to the greatest received is either lost or
      held, never both, and nothing else is. */
  predicate RcvOk(r: Rcv) {
    && BufOk(r.buf) && 2 <= r.buf.size
    && r.buf.ack <= r.curr + 1
    && (forall x :: x in r.loss ==> r.buf.ack <= x < r.curr)
    && (forall x :: x in r.buf.held ==> x <= r.curr && x !in r.loss)
    && (forall x :: r.buf.ack <= x <= r.curr ==> x in r.loss || x in r.buf.held)
    && HistoryOk(r.acks, r.lastAckAck, r.buf.ack)
  }

  /** The records carry positions in ascending order, from the last confirmed one to the last
      acknowledged one. */
  predicate HistoryOk(acks: seq<AckRec>, lastAckAck: int, ack: int) {
    && lastAckAck <= ack
    && (forall i :: 0 <= i < |acks| ==> lastAckAck <= acks[i].ack <= ack)
    && (forall i, j :: 0 <= i < j < |acks| ==> acks[i].ack <= acks[j].ack)
  }

  // The last confirmed position may lag behind by any distance, so comparisons with it are
  // those of the wrapped numbers.

  predicate SameNum(a: int, b: int) {
    Wrap(a) == Wrap(b)
  }

  predicate After(a: int, b: int) {
    SeqCmp(Wrap(a), Wrap(b)) > 0
  }

  /** All positions below this one have arrived; this one has not. */
  ghost function NextAck(r: Rcv): int {
    if r.loss == {} then r.curr + 1 else Min(r.loss)
  }

  // ---------------------------------------------------------------- steps

  predicate Accepts(r: Rcv, x: int) {
    0 <= x - r.buf.ack < AvailSize(r.buf) && x !in r.buf.held
  }

  /** Packet number `x` arrives: the new state and the range to report as lost, if any. */
  function Arrive(r: Rcv, x: int, p: Payload): (Rcv, Option<Range>) {
    if !Accepts(r, x) then (r, None)
    else
      var r1 := r.(buf := Add(r.buf, x - r.buf.ack, p).0);
      if x > r.curr + 1 then
        (r1.(loss := r.loss + Span(r.curr + 1, x - 1), curr := x), Some(Range(r.curr + 1, x - 1)))
      else if x > r.curr then (r1.(curr := x), None)
      else (r1.(loss := r.loss - {x}), None)
  }

  /** The position a lite acknowledgement would carry now. */
  ghost function SendLiteAck(r: Rcv): Option<int> {
    if SameNum(NextAck(r), r.lastAckAck) then None else Some(NextAck(r))
  }

  function MaxInt(a: int, b: int): int {
    if a < b then b else a
  }

  /** A full acknowledgement: newly completed packets become readable; `quiet` says that the
      last acknowledgement is too recent to be repeated.  Second part: the position and the
      window to send, if anything is sent. */
  ghost function SendAck(r: Rcv, quiet: bool, cap: int): (Rcv, Option<(int, int)>) {
    var a := NextAck(r);
    if SameNum(a, r.lastAckAck) || a < r.buf.ack || (a == r.buf.ack && quiet) then (r, None)
    else
      var r1 := r.(buf := Acknowledge(r.buf, a - r.buf.ack));
      if After(a, r.lastAckAck) then
        (r1.(ackSeqNo := r.ackSeqNo + 1, acks := Store(r.acks, cap, AckRec(r.ackSeqNo + 1, a))),
         Some((a, MaxInt(AvailSize(r1.buf), 2))))
      else (r1, None)
  }

  /** The peer confirms acknowledgement number `n`; `late` says that no time has passed since
      it was sent, in which case it is ignored. */
  function OnAck2(r: Rcv, n: int, late: bool): Rcv {
    var (rest, found) := TakeRecord(r.acks, n);
    var r1 := r.(acks := rest);
    if found.Some? && !late && After(found.value, r.lastAckAck) then r1.(lastAckAck := found.value) else r1
  }

  /** The application reads up to `n` bytes. */
  function ReadBytes(r: Rcv, n: int): (Rcv, seq<Byte>)
    requires BufOk(r.buf)
  {
    var (b, bytes) := Read(r.buf, n);
    (r.(buf := b), bytes)
  }

  // ---------------------------------------------------------------- what the steps keep

  lemma InitRcvOk(isn: int, size: int)
    requires size >= 2
    ensures RcvOk(InitRcv(isn, size)) && NextAck(InitRcv(isn, size)) == isn
  {
  }

  /** Exactly the positions below `NextAck` have been received without a gap. */
  lemma NextAckIsFirstGap(r: Rcv)
    requires RcvOk(r)
    ensures r.buf.ack <= NextAck(r) <= r.curr + 1
    ensures forall x :: r.buf.ack <= x < NextAck(r) ==> x in r.buf.held
    ensures NextAck(r) !in r.buf.held
    ensures NextAck(r) < r.buf.start + r.buf.size
  {
    if r.loss == {} {
      assert r.curr + 1 !in r.buf.held;
    }
    if r.buf.ack < NextAck(r) { assert NextAck(r) - 1 in r.buf.held; }
  }

  /** All losses and arrivals lie within one ring of the acknowledged position. */
  lemma RcvBounds(r: Rcv)
    requires RcvOk(r)
    ensures r.buf.start <= r.buf.ack <= r.curr + 1 < r.buf.start + r.buf.size
    ensures forall y :: y in r.loss ==> r.buf.ack <= y < r.curr
  {
    if r.curr >= r.buf.ack { assert r.curr in r.buf.held; }
  }

  /** A packet is accepted exactly when it is the next one or one of the lost ones and the
      ring has room for it. */
  lemma AcceptsWhen(r: Rcv, x: int)
    requires RcvOk(r)
    ensures Accepts(r, x) <==> (x > r.curr || x in r.loss) && x < r.buf.start + r.buf.size - 1
  {
    if x > r.curr { assert x !in r.buf.held; }
  }

  /** An arrival keeps the partition, never moves the first gap back, and never touches what
      is readable. */
  lemma ArriveOk(r: Rcv, x: int, p: Payload)
    requires RcvOk(r)
    ensures var r' := Arrive(r, x, p).0;
            && RcvOk(r') && r'.buf.ack == r.buf.ack && r'.lastAckAck == r.lastAckAck
            && Readable(r'.buf) == Readable(r.buf)
            && r.curr <= r'.curr && (r'.curr == r.curr || r'.curr == x)
            && (forall y :: y in r'.buf.held ==> y in r.buf.held || y == x)
            && (forall y :: y in r.buf.held ==> y in r'.buf.held && r'.buf.held[y] == r.buf.held[y])
            && (x in r'.buf.held && x !in r.buf.held ==> r'.buf.held[x] == p)
            && (Accepts(r, x) ==> x in r'.buf.held)
    ensures NextAck(r) <= NextAck(Arrive(r, x, p).0)
    ensures Arrive(r, x, p).1.Some? ==> var n := Arrive(r, x, p).1.value;
              r.curr < n.lo <= n.hi < x && Arrive(r, x, p).0.loss == r.loss + Span(n.lo, n.hi)
  {
    if Accepts(r, x) {
      AddKeepsReadable(r.buf, x - r.buf.ack, p);
      var r' := Arrive(r, x, p).0;
      assert forall y :: y in r'.buf.held <==> y in r.buf.held || y == x;
      NextAckIsFirstGap(r);
      NextAckIsFirstGap(r');
    }
  }

  /** All that an arrival changes: an accepted packet is held and no longer lost, the positions
      skipped are lost, and nothing else; a refused one changes nothing. */
  lemma ArriveExact(r: Rcv, x: int, p: Payload)
    requires RcvOk(r)
    ensures var r' := Arrive(r, x, p).0;
      && r' == r.(buf := r'.buf, curr := r'.curr, loss := r'.loss) && (!Accepts(r, x) ==> r' == r)
      && (Accepts(r, x) ==>
            && r'.buf == r.buf.(held := r.buf.held[x := p]) && r'.curr == MaxInt(r.curr, x)
            && forall y :: y in r'.loss <==> (y in r.loss && y != x) || r.curr < y < x)
  {
  }

  /** A report goes out if and only if the arrival makes some position newly lost, and it names
      exactly these. */
  lemma ReportExact(r: Rcv, x: int, p: Payload)
    requires RcvOk(r)
    ensures var (r', report) := Arrive(r, x, p);
      && (report.Some? <==> exists y :: y in r'.loss && y !in r.loss)
      && (report.Some? ==> forall y :: report.value.lo <= y <= report.value.hi <==> y in r'.loss && y !in r.loss)
  {
    ArriveExact(r, x, p);
    var r' := Arrive(r, x, p).0;
    if Accepts(r, x) && x > r.curr + 1 {
      assert r.curr + 1 in r'.loss && r.curr + 1 !in r.loss;
    }
  }

  /** A lite acknowledgement carries the first gap, and goes out unless its number is that of the
      last confirmed position. */
  lemma LiteAckExact(r: Rcv)
    requires RcvOk(r)
    ensures SendLiteAck(r).None? <==> SameNum(NextAck(r), r.lastAckAck)
    ensures SendLiteAck(r).Some? ==> var a := SendLiteAck(r).value;
      && r.buf.ack <= a <= r.curr + 1 && a !in r.buf.held && forall y :: r.buf.ack <= y < a ==> y in r.buf.held
  {
    NextAckIsFirstGap(r);
  }

  /** A full acknowledgement appends exactly the packets up to the first gap to what is
      readable. */
  lemma SendAckOk(r: Rcv, quiet: bool, cap: int)
    requires RcvOk(r)
    ensures var (r', sent) := SendAck(r, quiet, cap);
            && RcvOk(r') && r'.curr == r.curr && r'.loss == r.loss && r'.buf.held == r.buf.held
            && r'.buf.start == r.buf.start && r'.buf.size == r.buf.size
            && NextAck(r') == NextAck(r) && r'.lastAckAck == r.lastAckAck
            && r.buf.ack <= r'.buf.ack <= NextAck(r)
            && (forall x :: r.buf.ack <= x < r'.buf.ack ==> x in r.buf.held)
            && Readable(r'.buf) == Readable(r.buf) + Line(r.buf.held, r.buf.ack, r'.buf.ack)
            && (sent.Some? <==> After(NextAck(r), r.lastAckAck) && (NextAck(r) > r.buf.ack || !quiet))
            && (sent.Some? ==> sent.value.0 == r'.buf.ack == NextAck(r) && 2 <= sent.value.1 <= r.buf.size)
            && (sent.Some? ==> sent.value.1 == MaxInt(AvailSize(r'.buf), 2))
  {
    NextAckIsFirstGap(r);
    var a := NextAck(r);
    AcknowledgeAppends(r.buf, a - r.buf.ack);
    AcknowledgeAppends(r.buf, 0);
  }

  /** All packets before the first gap become readable unless its number is the confirmed one;
      what is sent is recorded under the next number, and nothing else changes. */
  lemma SendAckExact(r: Rcv, quiet: bool, cap: nat)
    requires RcvOk(r)
    ensures var (r', sent) := SendAck(r, quiet, cap);
      && r'.buf == r.buf.(ack := if SameNum(NextAck(r), r.lastAckAck) then r.buf.ack else NextAck(r))
      && r' == r.(buf := r'.buf, ackSeqNo := r'.ackSeqNo, acks := r'.acks)
      && r'.ackSeqNo == r.ackSeqNo + (if sent.Some? then 1 else 0)
      && (sent.None? ==> r'.acks == r.acks)
      && (sent.Some? && cap > 0 && (forall i :: 0 <= i < |r.acks| ==> r.acks[i].seqno != r'.ackSeqNo) ==>
            TakeRecord(r'.acks, r'.ackSeqNo).1 == Some(sent.value.0))
  {
    NextAckIsFirstGap(r);
    var (r', sent) := SendAck(r, quiet, cap);
    if sent.Some? && cap > 0 && forall i :: 0 <= i < |r.acks| ==> r.acks[i].seqno != r'.ackSeqNo {
      TakeRecordSkips(r'.acks, r'.ackSeqNo, |r'.acks| - 1);
    }
  }

  lemma OnAck2Ok(r: Rcv, n: int, late: bool)
    requires RcvOk(r)
    ensures var r' := OnAck2(r, n, late);
            RcvOk(r') && r' == r.(acks := r'.acks, lastAckAck := r'.lastAckAck)
    ensures r.lastAckAck <= OnAck2(r, n, late).lastAckAck
  {
    TakeRecordSpec(r.acks, n);
  }

  /** What an acknowledgement's confirmation does, whether or not it is on record. */
  lemma OnAck2Exact(r: Rcv, n: int, late: bool)
    ensures forall i :: 0 <= i < |r.acks| && r.acks[i].seqno == n &&
                        (forall j :: 0 <= j < i ==> r.acks[j].seqno != n) ==>
      OnAck2(r, n, late).acks == r.acks[i + 1..]
      && OnAck2(r, n, late).lastAckAck ==
        if !late && After(r.acks[i].ack, r.lastAckAck) then r.acks[i].ack else r.lastAckAck
    ensures (forall i :: 0 <= i < |r.acks| ==> r.acks[i].seqno != n) ==> OnAck2(r, n, late) == r
  {
    TakeRecordSpec(r.acks, n);
    hide TakeRecord;
    forall i | 0 <= i < |r.acks| && r.acks[i].seqno == n && (forall j :: 0 <= j < i ==> r.acks[j].seqno != n)
      ensures TakeRecord(r.acks, n) == (r.acks[i + 1..], Some(r.acks[i].ack))
    {
      TakeRecordSkips(r.acks, n, i);
    }
  }

  lemma ReadBytesOk(r: Rcv, n: int)
    requires RcvOk(r)
    ensures var (r', bytes) := ReadBytes(r, n);
            && RcvOk(r') && bytes + Readable(r'.buf) == Readable(r.buf)
            && r' == r.(buf := r'.buf) && r'.buf.ack == r.buf.ack
            && (forall x :: x in r'.buf.held ==> x in r.buf.held && r'.buf.held[x] == r.buf.held[x])
            && (forall x :: x in r.buf.held && x >= r.buf.ack ==> x in r'.buf.held)
            && NextAck(r') == NextAck(r) && r.buf.start <= r'.buf.start && r'.buf.size == r.buf.size
            && |bytes| == MaxInt(0, MinInt(n, |Readable(r.buf)|))
  {
    hide Read, Readable;
    ReadIsTake(r.buf, n);
  }
}
