/** The two endpoint objects and the channel, in the 31-bit numbers of the code: every step is a
    step of `Transport`, provided packets do not outlive the comparison threshold. */
module Connection {
  import opened SeqNo
  import opened Bytes
  import opened LossNodes
  import opened LossReport
  import opened SndBuffer
  import opened RcvBuffer
  import opened AckWindow
  import opened SenderModel
  import opened ReceiverModel
  import opened Transport
  import opened Completion
  import Sender
  import Receiver

  // ---------------------------------------------------------------- how old a packet may be

  /** The packet that arrives, or the number taken off the loss list, is not so old that its
      number might be mistaken for a later one. */
  ghost predicate Recent(s: Sys, e: Event) {
    match e
    case DataArrives(x, _) => x > s.rcv.curr + 1 - SEQ_NO_TH
    case LiteAckArrives(a) => a > s.snd.ack - SEQ_NO_TH
    case AckArrives(_, a, _, _) => a > s.snd.curr + 1 - SEQ_NO_TH
    case NakArrives(report) => forall k :: 0 <= k < |report| ==> report[k].lo > s.snd.curr + 1 - SEQ_NO_TH
    case Ack2Arrives(n, _) => n > s.rcv.ackSeqNo - SEQ_NO_TH
    case SendingLost =>
      s.pending.Some? ==> s.pending.value > s.snd.dataAck - SEQ_NO_TH
    case _ => true
  }

  ghost predicate Near(x: int, y: int) {
    -SEQ_NO_TH < x - y < SEQ_NO_TH
  }

  /** What the endpoints' methods ask of the positions that numbers stand for. */
  ghost predicate Told(s: Sys, e: Event) {
    match e
    case DataArrives(x, _) => Near(x, s.rcv.buf.ack) && -SEQ_NO_TH < x - s.rcv.curr - 1 && x - s.rcv.curr < SEQ_NO_TH
    case LiteAckArrives(a) => -SEQ_NO_TH < a - s.snd.ack && a <= s.snd.curr + 1
    case AckArrives(_, a, _, _) =>
      Near(a, s.snd.curr + 1) && -SEQ_NO_TH < a - s.snd.dataAck && -SEQ_NO_TH < a - s.snd.ack
    case NakArrives(report) => forall k :: 0 <= k < |report| ==>
      var r := report[k];
      && Near(r.hi, r.lo) && Near(r.lo, s.snd.ack) && Near(r.hi, s.snd.ack)
      && Near(r.lo, s.snd.curr) && Near(r.hi, s.snd.curr)
    case Ack2Arrives(n, _) => Near(n, s.rcv.ackSeqNo)
    case SendingLost =>
      s.pending.Some? ==> s.pending.value <= s.snd.curr && s.pending.value - s.snd.dataAck > -SEQ_NO_TH
    case _ => true
  }

  /** In every reachable state, numbers of recent packets are told apart: every distance the
      methods rely on is inside the threshold. */
  lemma RecentIsTold(c: Config, s: Sys, e: Event)
    requires ConfigOk(c) && Live(c, s) && Enabled(s, e) && Recent(s, e)
    ensures Told(s, e)
  {
    SenderBehind(c, s);
    LiveParts(c, s);
    RcvBounds(s.rcv);
    AckBounds(c, s);
    match e
    case DataArrives(x, p) => assert Truthful(c, s, Data(x, p));
    case LiteAckArrives(a) => LiteAckInRange(c, s, a);
    case AckArrives(n, a, w, _) => AckInRange(c, s, n, a, w);
    case NakArrives(report) => assert Truthful(c, s, NakPkt(report));
    case _ =>
  }

  // ---------------------------------------------------------------- the objects

  /** `taken` is the number packData has taken off the loss list and not yet looked up, or -1;
      `delivered` is all the receiving application has read; `sys` is the abstract state. */
  class Connection {
    const sender: Sender.Sender
    const receiver: Receiver.Receiver
    ghost const c: Config
    var taken: int
    var delivered: seq<Byte>
    ghost var sys: Sys

    ghost predicate Apart()
      reads {}
    {
      {sender.sndLossList.data1, sender.sndLossList.data2, sender.sndLossList.next} !!
      {receiver.rcvLossList.data1, receiver.rcvLossList.data2, receiver.rcvLossList.next, receiver.rcvLossList.prior,
       receiver.ackWindow.ackSeqNo, receiver.ackWindow.ack}
    }

    ghost predicate SendSide()
      reads this, sender, sender.sndBuffer, sender.sndBuffer.ring
      reads sender.sndLossList, sender.sndLossList.data1, sender.sndLossList.data2, sender.sndLossList.next
    {
      && sender.Valid() && sender.st == sys.snd && sender.w == c.window && sender.sndBuffer.mss == c.mss
      && taken == match sys.pending case None => -1 case Some(x) => Wrap(x)
    }

    ghost predicate ReceiveSide()
      reads this, receiver, receiver.rcvBuffer, receiver.rcvBuffer.unit, receiver.rcvLossList
      reads receiver.rcvLossList.data1, receiver.rcvLossList.data2
      reads receiver.rcvLossList.next, receiver.rcvLossList.prior
      reads receiver.ackWindow, receiver.ackWindow.ackSeqNo, receiver.ackWindow.ack
    {
      receiver.Valid() && receiver.st == sys.rcv && receiver.ackWindow.size == c.acks + 1 && delivered == sys.delivered
    }

    ghost predicate Valid()
      reads this, sender, sender.sndBuffer, sender.sndBuffer.ring
      reads sender.sndLossList, sender.sndLossList.data1, sender.sndLossList.data2, sender.sndLossList.next
      reads receiver, receiver.rcvBuffer, receiver.rcvBuffer.unit, receiver.rcvLossList
      reads receiver.rcvLossList.data1, receiver.rcvLossList.data2
      reads receiver.rcvLossList.next, receiver.rcvLossList.prior
      reads receiver.ackWindow, receiver.ackWindow.ackSeqNo, receiver.ackWindow.ack
    {
      ConfigOk(c) && Live(c, sys) && Apart() && SendSide() && ReceiveSide()
    }

    /** All objects the connection consists of. */
    ghost function Objects(): set<object>
      reads this, sender, sender.sndBuffer
    {
      {this, sender, sender.sndBuffer, sender.sndLossList} +
      {sender.sndLossList.data1, sender.sndLossList.data2, sender.sndLossList.next} +
      sender.sndBuffer.Blocks() +
      {receiver, receiver.rcvBuffer, receiver.rcvBuffer.unit, receiver.rcvLossList} +
      {receiver.rcvLossList.data1, receiver.rcvLossList.data2, receiver.rcvLossList.next, receiver.rcvLossList.prior} +
      {receiver.ackWindow, receiver.ackWindow.ackSeqNo, receiver.ackWindow.ack}
    }

    lemma State()
      requires Valid()
      ensures ConfigOk(c) && Live(c, sys) && delivered == sys.delivered && this in Objects()
      ensures taken == -1 <==> sys.pending.None?
    {
    }

    constructor (sender: Sender.Sender, receiver: Receiver.Receiver, ghost c: Config)
      ensures this.sender == sender && this.receiver == receiver && this.c == c
      ensures taken == -1 && delivered == [] && sys == Start(c)
    {
      this.sender, this.receiver, this.c := sender, receiver, c;
      taken, delivered, sys := -1, [], Start(c);
    }

    /** Two fresh endpoints with the same initial number, for any such number. */
    static method Open(isn: SeqNum, mss: int, window: int, bufSize: int) returns (r: Connection)
      requires mss > 0 && 2 <= bufSize <= window && 2 * window < SEQ_NO_TH
      ensures fresh(r.Objects()) && r.Valid() && r.c == Config(isn, mss, window, bufSize, 1023) && r.sys == Start(r.c)
    {
      hide Live, Sender.Sender.Valid, Receiver.Receiver.Valid, SndBuffer.Blocks;
      var sender := new Sender.Sender(isn, window, mss);
      var receiver := new Receiver.Receiver(isn, bufSize, window);
      ghost var c := Config(isn, mss, window, bufSize, 1023);
      StartLives(c);
      r := new Connection(sender, receiver, c);
    }

    /** The application hands over data. */
    method Submit(data: seq<Byte>)
      requires Valid()
      modifies `sys, sender, sender.sndBuffer, sender.sndBuffer.ring
      ensures Valid() && sys == Step(c, old(sys), Submitting(data)) && fresh(Objects() - old(Objects()))
    {
      hide Live, Sender.Sender.Valid, Receiver.Receiver.Valid;
      StepLives(c, sys, Submitting(data));
      sender.Send(data);
      sys := Step(c, sys, Submitting(data));
    }

    /** A data packet arrives; `report` is the loss report that goes back, if not empty. */
    method DataArrive(seqno: SeqNum, payload: Payload, ghost x: int) returns (report: seq<int>)
      requires Valid() && seqno == Wrap(x)
      requires Enabled(sys, DataArrives(x, payload)) && Recent(sys, DataArrives(x, payload))
      modifies `sys, receiver, receiver.rcvBuffer, receiver.rcvBuffer.unit, receiver.rcvLossList
      modifies receiver.rcvLossList.data1, receiver.rcvLossList.data2
      modifies receiver.rcvLossList.next, receiver.rcvLossList.prior
      ensures Valid() && sys == Step(c, old(sys), DataArrives(x, payload))
      ensures report == match Arrive(old(sys).rcv, x, payload).1 case None => [] case Some(r) => EncodeRange(r)
    {
      hide Live, Sender.Sender.Valid, Receiver.Receiver.Valid, Arrive;
      StepLives(c, sys, DataArrives(x, payload));
      RecentIsTold(c, sys, DataArrives(x, payload));
      report := receiver.OnData(seqno, payload, x);
      sys := Step(c, sys, DataArrives(x, payload));
    }

    /** packData takes the least lost number off the list ... */
    method TakeLostNumber()
      requires Valid() && Enabled(sys, TakingLost)
      modifies `sys, `taken, sender
      modifies sender.sndLossList, sender.sndLossList.data1, sender.sndLossList.data2, sender.sndLossList.next
      ensures Valid() && sys == Step(c, old(sys), TakingLost)
    {
      hide Live, Sender.Sender.Valid, Receiver.Receiver.Valid;
      StepLives(c, sys, TakingLost);
      taken := sender.TakeLostSeq();
      sys := Step(c, sys, TakingLost);
    }

    /** ... and looks its packet up, which by then may have been released. */
    method SendLost() returns (seqno: int, payload: Option<Payload>)
      requires Valid() && Enabled(sys, SendingLost) && Recent(sys, SendingLost)
      modifies `sys, `taken
      ensures Valid() && Defined(old(sys), SendingLost) && sys == Step(c, old(sys), SendingLost)
      ensures seqno == Wrap(old(sys).pending.value) && payload == LookUp(old(sys).snd, old(sys).pending.value)
    {
      hide Live, Sender.Sender.Valid, Receiver.Receiver.Valid;
      StepLives(c, sys, SendingLost);
      RecentIsTold(c, sys, SendingLost);
      seqno := taken;
      payload := sender.LookUpLost(taken, sys.pending.value);
      taken := -1;
      sys := Step(c, sys, SendingLost);
    }

    /** A new packet goes out under the next number, if the windows allow it. */
    method SendNewPacket(congestion: int) returns (seqno: int, payload: Option<Payload>)
      requires Valid() && Enabled(sys, SendingNew(congestion))
      modifies `sys, sender, sender.sndBuffer`currBlock, sender.sndBuffer`curr
      ensures Valid() && Defined(old(sys), SendingNew(congestion)) && sys == Step(c, old(sys), SendingNew(congestion))
      ensures payload == SendNew(old(sys).snd, congestion).1 && (payload.Some? ==> seqno == Wrap(sys.snd.curr))
    {
      hide Live, Sender.Sender.Linked, Receiver.Receiver.Valid;
      StepLives(c, sys, SendingNew(congestion));
      NumberSent();
      payload := sender.PackNew(congestion);
      seqno := sender.sndCurrSeqNo;
      sys := Step(c, sys, SendingNew(congestion));
      NumberSent();
    }

    lemma NumberSent()
      requires sender.Valid() && sender.st == sys.snd
      ensures sys.snd.curr >= -1 && sender.sndCurrSeqNo == Curr(sys.snd.curr)
    {
    }

    method TimeOut()
      requires Valid()
      modifies `sys, sender
      modifies sender.sndLossList, sender.sndLossList.data1, sender.sndLossList.data2, sender.sndLossList.next
      ensures Valid() && sys == Step(c, old(sys), TimingOut)
    {
      hide Live, Sender.Sender.Valid, Receiver.Receiver.Valid;
      StepLives(c, sys, TimingOut);
      sender.OnTimeout();
      sys := Step(c, sys, TimingOut);
    }

    method LiteAckArrive(ack: SeqNum, ghost a: int)
      requires Valid() && ack == Wrap(a) && Enabled(sys, LiteAckArrives(a)) && Recent(sys, LiteAckArrives(a))
      modifies `sys, sender
      ensures Valid() && sys == Step(c, old(sys), LiteAckArrives(a))
    {
      hide Live, Sender.Sender.Valid, Receiver.Receiver.Valid;
      StepLives(c, sys, LiteAckArrives(a));
      RecentIsTold(c, sys, LiteAckArrives(a));
      sender.OnLiteAck(ack, a);
      sys := Step(c, sys, LiteAckArrives(a));
    }

    /** A full acknowledgement arrives; `confirm` says whether it is answered. */
    method AckArrive(ackno: SeqNum, ack: SeqNum, window: int, confirm: bool, ghost n: int, ghost a: int)
      requires Valid() && ackno == Wrap(n) && ack == Wrap(a)
      requires var e := AckArrives(n, a, window, confirm); Enabled(sys, e) && Recent(sys, e)
      modifies `sys, sender, sender.sndBuffer
      modifies sender.sndLossList, sender.sndLossList.data1, sender.sndLossList.data2, sender.sndLossList.next
      ensures var e := AckArrives(n, a, window, confirm);
        Valid() && Defined(old(sys), e) && sys == Step(c, old(sys), e)
      ensures sender.sndBuffer.Blocks() == old(sender.sndBuffer.Blocks())
    {
      hide Live, Sender.Sender.Valid, Receiver.Receiver.Valid, FullAck;
      ghost var e := AckArrives(n, a, window, confirm);
      StepLives(c, sys, e);
      RecentIsTold(c, sys, e);
      WindowFits(c, sys, n, a, window);
      sender.OnAck(ack, window, a);
      sys := Step(c, sys, e);
    }

    /** A loss report arrives. */
    method NakArrive(words: seq<int>, ghost report: seq<Range>)
      requires Valid() && Names(words, report)
      requires Enabled(sys, NakArrives(report)) && Recent(sys, NakArrives(report))
      modifies `sys, sender
      modifies sender.sndLossList, sender.sndLossList.data1, sender.sndLossList.data2, sender.sndLossList.next
      ensures Valid() && sys == Step(c, old(sys), NakArrives(report))
    {
      hide Live, Sender.Sender.Valid, Receiver.Receiver.Valid, Names, NakLoss, Enabled;
      StepLives(c, sys, NakArrives(report));
      RecentIsTold(c, sys, NakArrives(report));
      sender.OnNak(words, report);
      sys := Step(c, sys, NakArrives(report));
    }

    method Ack2Arrive(ackno: SeqNum, late: bool, ghost n: int)
      requires Valid() && ackno == Wrap(n) && Enabled(sys, Ack2Arrives(n, late)) && Recent(sys, Ack2Arrives(n, late))
      modifies `sys, receiver, receiver.ackWindow, receiver.ackWindow.ackSeqNo
      ensures Valid() && sys == Step(c, old(sys), Ack2Arrives(n, late))
    {
      hide Live, Sender.Sender.Valid, Receiver.Receiver.Valid, OnAck2;
      StepLives(c, sys, Ack2Arrives(n, late));
      RecentIsTold(c, sys, Ack2Arrives(n, late));
      receiver.OnAck2(ackno, late, n);
      sys := Step(c, sys, Ack2Arrives(n, late));
    }

    method LiteAckSend() returns (ack: Option<SeqNum>)
      requires Valid()
      modifies `sys
      ensures Valid() && sys == Step(c, old(sys), SendingLiteAck)
      ensures ack == match SendLiteAck(sys.rcv) case None => None case Some(a) => Some(Wrap(a))
    {
      hide Live, Sender.Sender.Valid, Receiver.Receiver.Valid, SendLiteAck;
      StepLives(c, sys, SendingLiteAck);
      ack := receiver.MakeLiteAck();
      sys := Step(c, sys, SendingLiteAck);
    }

    method AckSend(quiet: bool) returns (ack: Option<(SeqNum, SeqNum, int)>)
      requires Valid()
      modifies `sys, receiver, receiver.rcvBuffer
      modifies receiver.ackWindow, receiver.ackWindow.ackSeqNo, receiver.ackWindow.ack
      ensures Valid() && sys == Step(c, old(sys), SendingAck(quiet))
      ensures ack == match SendAck(old(sys).rcv, quiet, c.acks).1
                     case None => None
                     case Some((a, window)) => Some((Wrap(sys.rcv.ackSeqNo), Wrap(a), window))
    {
      hide Live, Sender.Sender.Valid, Receiver.Receiver.Valid, SendAck;
      StepLives(c, sys, SendingAck(quiet));
      ack := receiver.MakeAck(quiet);
      sys := Step(c, sys, SendingAck(quiet));
    }

    /** The receiving application reads. */
    method Read(n: int) returns (data: seq<Byte>)
      requires Valid()
      modifies `sys, `delivered, receiver, receiver.rcvBuffer, receiver.rcvBuffer.unit
      ensures Valid() && Defined(old(sys), Reading(n)) && sys == Step(c, old(sys), Reading(n))
      ensures delivered == old(delivered) + data
    {
      hide Live, Sender.Sender.Valid, Receiver.Receiver.Valid, ReadBytes, BufOk;
      StepLives(c, sys, Reading(n));
      data := receiver.Recv(n);
      delivered := delivered + data;
      sys := Step(c, sys, Reading(n));
    }

    /** Whatever calls led here, the bytes read are a prefix of the bytes handed over. */
    lemma DeliveredIsPrefix()
      requires Valid()
      ensures delivered <= Flat(sys.stream)
    {
      PrefixDelivered(c, sys);
    }
  }

  lemma WindowFits(c: Config, s: Sys, n: int, a: int, w: int)
    requires ConfigOk(c) && Live(c, s) && AckPkt(n, a, w) in s.net
    ensures w <= c.window
  {
    AckInRange(c, s, n, a, w);
  }

  lemma PrefixDelivered(c: Config, s: Sys)
    requires ConfigOk(c) && Live(c, s)
    ensures s.delivered <= Flat(s.stream)
  {
    AckBounds(c, s);
    FlatPrefix(s.stream, s.rcv.buf.ack - c.isn);
  }
}
