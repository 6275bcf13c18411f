/** A whole connection driven by any calls over a channel that keeps every packet, to be lost,
    repeated or reordered at will while it is young enough: what the receiving application has
    read is a prefix of what the sending one handed over. */
module Network {
  import opened SeqNo
  import opened Bytes
  import opened LossNodes
  import opened LossReport
  import opened SndBuffer
  import opened RcvBuffer
  import opened SenderModel
  import opened ReceiverModel
  import opened Transport
  import opened Completion
  import Connection

  // ---------------------------------------------------------------- packets

  /** Packets as they travel. */
  datatype Wire =
    | DataWire(seqno: SeqNum, payload: Payload)
    | LiteWire(ack: SeqNum)
    | AckWire(ackno: SeqNum, ack: SeqNum, window: int)
    | NakWire(words: seq<int>)
    | Ack2Wire(ackno: SeqNum)

  /** `born` is the number of calls before the one that sent it. */
  datatype Parcel = Parcel(wire: Wire, born: nat)

  /** No packet arrives, and no looked-up number is used, more than this many calls late. */
  const LIFETIME: nat := 0x1000_0000

  ghost predicate Matches(w: Wire, p: Packet) {
    match w
    case DataWire(seqno, payload) => p.Data? && seqno == Wrap(p.x) && payload == p.payload
    case LiteWire(ack) => p.LiteAckPkt? && ack == Wrap(p.a)
    case AckWire(ackno, ack, window) => p.AckPkt? && ackno == Wrap(p.n) && ack == Wrap(p.a) && window == p.w
    case NakWire(words) => p.NakPkt? && Names(words, p.report)
    case Ack2Wire(ackno) => p.Ack2Pkt? && ackno == Wrap(p.n)
  }

  // ---------------------------------------------------------------- how packets age

  /** A packet sent `k` calls ago is at most so far behind. */
  ghost predicate Young(c: Config, s: Sys, p: Packet, k: int) {
    match p
    case Data(x, _) => x + k > s.snd.curr - c.window
    case LiteAckPkt(a) => a + k > s.snd.curr - c.window
    case AckPkt(n, a, _) => a + k > s.snd.curr - c.window && n + k >= s.rcv.ackSeqNo
    case Ack2Pkt(n) => n + k + LIFETIME >= s.rcv.ackSeqNo
    case NakPkt(report) => forall i :: 0 <= i < |report| ==> report[i].lo + k > s.snd.curr - c.window
  }

  ghost predicate PendingYoung(c: Config, s: Sys, k: int) {
    s.pending.Some? ==> s.pending.value + k > s.snd.curr - c.window
  }

  /** In one step nothing gets more than one number ahead. */
  lemma OneAhead(c: Config, s: Sys, e: Event)
    requires ConfigOk(c) && Live(c, s) && Enabled(s, e) && Defined(s, e)
    ensures Step(c, s, e).snd.curr <= s.snd.curr + 1
    ensures Step(c, s, e).rcv.ackSeqNo <= s.rcv.ackSeqNo + 1
  {
    hide Live, NakLoss, Min, NextAck, RcvOk, Accepts;
  }

  lemma Ages(c: Config, s: Sys, t: Sys, p: Packet, k: int)
    requires t.snd.curr <= s.snd.curr + 1 && t.rcv.ackSeqNo <= s.rcv.ackSeqNo + 1 && Young(c, s, p, k)
    ensures Young(c, t, p, k + 1)
  {
  }

  lemma SentWindow(c: Config, s: Sys)
    requires Live(c, s)
    ensures s.snd.dataAck > s.snd.curr - c.window && s.snd.dataAck <= s.snd.ack <= s.snd.curr + 1
    ensures s.snd.ack <= NextAck(s.rcv) && s.rcv.curr <= s.snd.curr
  {
  }

  /** A packet within its lifetime is recent enough for its numbers to be told apart. */
  lemma YoungIsRecent(c: Config, s: Sys, e: Event, p: Packet, k: int)
    requires ConfigOk(c) && Live(c, s) && Young(c, s, p, k) && k <= LIFETIME
    requires match e
      case DataArrives(x, payload) => p == Data(x, payload)
      case LiteAckArrives(a) => p == LiteAckPkt(a)
      case AckArrives(n, a, w, _) => p == AckPkt(n, a, w)
      case NakArrives(report) => p == NakPkt(report)
      case Ack2Arrives(n, _) => p == Ack2Pkt(n)
      case _ => false
    ensures Connection.Recent(s, e)
  {
    SentWindow(c, s);
    hide Live, NextAck;
  }

  lemma PendingIsRecent(c: Config, s: Sys, k: int)
    requires ConfigOk(c) && Live(c, s) && PendingYoung(c, s, k) && k <= LIFETIME
    ensures Connection.Recent(s, SendingLost)
  {
    SentWindow(c, s);
    hide Live, NextAck;
  }

  lemma StepFacts(c: Config, s: Sys, e: Event)
    requires ConfigOk(c) && Live(c, s) && Enabled(s, e) && Defined(s, e)
    ensures var t := Step(c, s, e);
      && t.snd.curr <= s.snd.curr + 1 && t.rcv.ackSeqNo <= s.rcv.ackSeqNo + 1 && s.net <= t.net
      && (!e.Submitting? ==> t.stream == s.stream)
      && (t.pending.Some? && !e.TakingLost? ==> t.pending == s.pending)
  {
    OneAhead(c, s, e);
    hide Live, NakLoss, Min, NextAck, RcvOk, Accepts;
  }

  lemma PendingAges(c: Config, s: Sys, e: Event, k: nat)
    requires ConfigOk(c) && Live(c, s) && Enabled(s, e) && Defined(s, e) && PendingYoung(c, s, k)
    ensures PendingYoung(c, Step(c, s, e), if e.TakingLost? then 0 else k + 1)
  {
    StepFacts(c, s, e);
    SentWindow(c, s);
    if e.TakingLost? {
      TakeLostOk(s.snd, c.window);
      hide NakLoss, Min, NextAck, RcvOk, Accepts;
    } else {
      hide Live, Step;
    }
  }

  lemma LiteLeaves(c: Config, s: Sys)
    requires ConfigOk(c)
    ensures Step(c, s, SendingLiteAck).rcv == s.rcv
  {
  }

  // ---------------------------------------------------------------- what is sent

  /** The packet a step sends, if any. */
  ghost function Emitted(c: Config, s: Sys, e: Event): seq<Packet>
    requires ConfigOk(c) && Defined(s, e)
  {
    match e
    case SendingLost =>
      var p := LookUp(s.snd, s.pending.value);
      if p.Some? then [Data(s.pending.value, p.value)] else []
    case SendingNew(congestion) =>
      var (snd, p) := SendNew(s.snd, congestion);
      if p.Some? then [Data(snd.curr, p.value)] else []
    case DataArrives(x, p) =>
      var (_, lost) := Arrive(s.rcv, x, p);
      if lost.Some? then [NakPkt([lost.value])] else []
    case AckArrives(n, _, _, confirm) => if confirm then [Ack2Pkt(n)] else []
    case SendingLiteAck =>
      var a := SendLiteAck(s.rcv);
      if a.Some? then [LiteAckPkt(a.value)] else []
    case SendingAck(quiet) =>
      var (rcv, sent) := SendAck(s.rcv, quiet, c.acks);
      if sent.Some? then [AckPkt(rcv.ackSeqNo, sent.value.0, sent.value.1)] else []
    case _ => []
  }

  /** A step sends what the system says it sends. */
  lemma EmittedIsSent(c: Config, s: Sys, e: Event)
    requires ConfigOk(c) && Defined(s, e)
    ensures Step(c, s, e).net == s.net + set p | p in Emitted(c, s, e)
  {
    hide LookUp, SendNew, Arrive, SendLiteAck, ReceiverModel.SendAck, TakeLost, ReadBytes, OnAck2, FullAck, Nak;
  }

  lemma DataYoung(c: Config, s: Sys, x: int, payload: Payload)
    requires Live(c, s) && x >= s.snd.dataAck
    ensures Young(c, s, Data(x, payload), 0)
  {
    SentWindow(c, s);
    hide Live;
  }

  lemma LostSent(c: Config, s: Sys)
    requires ConfigOk(c) && Live(c, s) && s.pending.Some? && Defined(s, SendingLost)
    requires LookUp(s.snd, s.pending.value).Some?
    ensures var t, p := Step(c, s, SendingLost), Data(s.pending.value, LookUp(s.snd, s.pending.value).value);
      p in t.net && Young(c, t, p, 0) && Emitted(c, s, SendingLost) == [p]
  {
    SentWindow(c, s);
    hide Live, NextAck;
  }

  lemma NewSent(c: Config, s: Sys, congestion: int)
    requires ConfigOk(c) && Live(c, s) && s.pending.None? && Defined(s, SendingNew(congestion))
    requires SendNew(s.snd, congestion).1.Some?
    ensures var t := Step(c, s, SendingNew(congestion));
      var p := Data(t.snd.curr, SendNew(s.snd, congestion).1.value);
      p in t.net && Young(c, t, p, 0) && Emitted(c, s, SendingNew(congestion)) == [p]
  {
  }

  lemma LiteSent(c: Config, s: Sys)
    requires ConfigOk(c) && Live(c, s) && SendLiteAck(s.rcv).Some?
    ensures var t, p := Step(c, s, SendingLiteAck), LiteAckPkt(SendLiteAck(s.rcv).value);
      p in t.net && Young(c, t, p, 0) && Emitted(c, s, SendingLiteAck) == [p]
  {
    SentWindow(c, s);
    hide Live, NextAck;
  }

  ghost function AckOf(t: Sys, s: Sys, quiet: bool, cap: int): Packet
    requires SendAck(s.rcv, quiet, cap).1.Some?
  {
    var (a, w) := SendAck(s.rcv, quiet, cap).1.value;
    AckPkt(t.rcv.ackSeqNo, a, w)
  }

  lemma AckSent(c: Config, s: Sys, quiet: bool)
    requires ConfigOk(c) && Live(c, s) && SendAck(s.rcv, quiet, c.acks).1.Some?
    ensures var t, (a, w) := Step(c, s, SendingAck(quiet)), SendAck(s.rcv, quiet, c.acks).1.value;
      var p := AckOf(t, s, quiet, c.acks);
      p in t.net && Young(c, t, p, 0) && Matches(AckWire(Wrap(t.rcv.ackSeqNo), Wrap(a), w), p)
      && Emitted(c, s, SendingAck(quiet)) == [p]
  {
    SentWindow(c, s);
    LiveParts(c, s);
    SendAckOk(s.rcv, quiet, c.acks);
    hide Live, NextAck, SendAck, RcvOk;
  }

  lemma NakSent(c: Config, s: Sys, x: int, payload: Payload)
    requires ConfigOk(c) && Live(c, s) && Arrive(s.rcv, x, payload).1.Some?
    ensures var r := Arrive(s.rcv, x, payload).1.value;
      var t, p := Step(c, s, DataArrives(x, payload)), NakPkt([r]);
      p in t.net && Young(c, t, p, 0) && Matches(NakWire(EncodeRange(r)), p)
      && Emitted(c, s, DataArrives(x, payload)) == [p]
  {
    NamesOne(Arrive(s.rcv, x, payload).1.value);
    SentWindow(c, s);
    LiveParts(c, s);
    NextAckIsFirstGap(s.rcv);
    hide Live, NextAck, RcvOk;
  }

  lemma SilentOrNot(c: Config, s: Sys, x: int, payload: Payload)
    requires ConfigOk(c)
    ensures match Arrive(s.rcv, x, payload).1
      case None => Emitted(c, s, DataArrives(x, payload)) == []
      case Some(r) => EncodeRange(r) != []
  {
    hide Arrive;
  }

  lemma Ack2Sent(c: Config, s: Sys, e: Event, k: int)
    requires ConfigOk(c) && e.AckArrives? && e.confirm && Defined(s, e)
    requires Young(c, s, AckPkt(e.n, e.a, e.w), k) && k <= LIFETIME
    ensures Ack2Pkt(e.n) in Step(c, s, e).net && Young(c, Step(c, s, e), Ack2Pkt(e.n), 0)
    ensures Emitted(c, s, e) == [Ack2Pkt(e.n)]
  {
  }

  /** What happens when a packet arrives. */
  function ArrivalOf(p: Packet, flag: bool): Event {
    match p
    case Data(x, payload) => DataArrives(x, payload)
    case LiteAckPkt(a) => LiteAckArrives(a)
    case AckPkt(n, a, w) => AckArrives(n, a, w, flag)
    case NakPkt(report) => NakArrives(report)
    case Ack2Pkt(n) => Ack2Arrives(n, flag)
  }

  // ---------------------------------------------------------------- the network

  /** What the channel holds are packets of the state `s`, none older than it looks. */
  ghost predicate OnTheWay(c: Config, s: Sys, parcels: seq<Parcel>, packets: seq<Packet>, now: nat) {
    && |packets| == |parcels|
    && forall i :: 0 <= i < |parcels| ==>
      && parcels[i].born <= now && packets[i] in s.net && Matches(parcels[i].wire, packets[i])
      && Young(c, s, packets[i], now - parcels[i].born)
  }

  lemma AllAge(c: Config, s: Sys, e: Event, parcels: seq<Parcel>, packets: seq<Packet>, now: nat)
    requires ConfigOk(c) && Live(c, s) && Enabled(s, e) && Defined(s, e) && OnTheWay(c, s, parcels, packets, now)
    ensures OnTheWay(c, Step(c, s, e), parcels, packets, now + 1)
  {
    hide Live, Step, Young, Matches, Enabled, Defined;
    StepFacts(c, s, e);
    forall i | 0 <= i < |parcels| ensures Young(c, Step(c, s, e), packets[i], now + 1 - parcels[i].born) {
      Ages(c, s, Step(c, s, e), packets[i], now - parcels[i].born);
    }
  }

  lemma Joins(c: Config, s: Sys, parcels: seq<Parcel>, packets: seq<Packet>, now: nat, w: Wire, p: Packet)
    requires OnTheWay(c, s, parcels, packets, now) && Matches(w, p) && p in s.net && Young(c, s, p, 0)
    ensures OnTheWay(c, s, parcels + [Parcel(w, now)], packets + [p], now)
  {
    hide Young, Matches;
  }

  class Network {
    const conn: Connection.Connection
    var parcels: seq<Parcel> // every packet ever sent
    var now: nat             // how many calls have been made
    var takenAt: nat
    var submitted: seq<Byte>

    ghost var packets: seq<Packet>
    ghost var ss: seq<Sys> // the states and the steps so far
    ghost var es: seq<Event>

    /** What the channel holds are packets of the state `s`, none older than it looks. */
    ghost predicate Channel(s: Sys)
      reads `parcels, `now, `packets
    {
      OnTheWay(conn.c, s, parcels, packets, now)
    }

    /** The system has come to state `s` by a run of its steps. */
    ghost predicate History(s: Sys)
      reads `ss, `es
    {
      ConfigOk(conn.c) && IsRun(conn.c, ss, es) && ss[|es|] == s
    }

    ghost predicate Valid()
      reads this, conn, conn.Objects()
    {
      && conn.Valid() && Channel(conn.sys) && History(conn.sys) && Flat(conn.sys.stream) == submitted
      && takenAt <= now && PendingYoung(conn.c, conn.sys, now - takenAt)
    }

    /** One call was made, the step `e`, and what it sent is on the channel from now on. */
    twostate predicate Made(e: Event)
      reads this, conn
    {
      && ConfigOk(conn.c) && Enabled(old(conn.sys), e) && Defined(old(conn.sys), e)
      && conn.sys == Step(conn.c, old(conn.sys), e)
      && es == old(es) + [e] && ss == old(ss) + [conn.sys] && now == old(now) + 1
      && takenAt == (if e.TakingLost? then now else old(takenAt))
      && packets == old(packets) + Emitted(conn.c, old(conn.sys), e)
      && old(parcels) <= parcels && |parcels| == |packets|
      && forall i :: |old(parcels)| <= i < |parcels| ==> parcels[i].born == now
    }

    /** Nothing has happened. */
    twostate predicate Idle()
      reads this, conn
    {
      unchanged(this, conn)
    }

    constructor (conn: Connection.Connection)
      ensures this.conn == conn && parcels == [] && packets == [] && now == takenAt == 0 && submitted == []
      ensures ss == [Start(conn.c)] && es == []
    {
      this.conn, parcels, now, takenAt, submitted, packets := conn, [], 0, 0, [], [];
      ss, es := [Start(conn.c)], [];
    }

    static method Open(isn: SeqNum, mss: int, window: int, bufSize: int) returns (r: Network)
      requires mss > 0 && 2 <= bufSize <= window && 2 * window < SEQ_NO_TH
      ensures fresh(r) && fresh(r.conn.Objects()) && r.Valid() && r.submitted == r.conn.delivered == []
      ensures r.conn.c == Config(isn, mss, window, bufSize, 1023) && r.conn.sys == Start(r.conn.c)
      ensures r.parcels == [] && r.packets == [] && r.now == 0 && r.conn.taken == -1
    {
      hide Connection.Connection.Valid, Live, Network.Valid;
      var conn := Connection.Connection.Open(isn, mss, window, bufSize);
      conn.State();
      r := new Network(conn);
      r.NothingYet();
    }

    lemma NothingYet()
      requires conn.Valid() && conn.sys == Start(conn.c) && parcels == [] && packets == []
      requires now == takenAt == 0 && submitted == [] && ss == [conn.sys] && es == [] && ConfigOk(conn.c)
      ensures Valid()
    {
      hide Connection.Connection.Valid, Flat;
      NoBytes();
    }

    /** One call more has been made, the step `e` from `s`; it sent `w`, if anything. */
    method Record(ghost s: Sys, ghost e: Event, w: Option<Wire>, ghost p: Packet, taken: bool)
      requires conn.Valid() && (taken <==> e.TakingLost?)
      requires Channel(s) && History(s) && takenAt <= now && PendingYoung(conn.c, s, now - takenAt)
      requires ConfigOk(conn.c) && Live(conn.c, s) && Enabled(s, e) && Defined(s, e) && conn.sys == Step(conn.c, s, e)
      requires w.Some? ==> Matches(w.value, p) && p in conn.sys.net && Young(conn.c, conn.sys, p, 0)
      requires Emitted(conn.c, s, e) == if w.Some? then [p] else []
      modifies `now, `parcels, `packets, `takenAt, `ss, `es
      ensures Channel(conn.sys) && History(conn.sys) && takenAt <= now
      ensures PendingYoung(conn.c, conn.sys, now - takenAt)
      ensures conn.Valid() && conn.Objects() == old(conn.Objects())
      ensures !e.Submitting? ==> conn.sys.stream == s.stream
      ensures es == old(es) + [e] && ss == old(ss) + [conn.sys] && now == old(now) + 1
      ensures takenAt == (if taken then now else old(takenAt))
      ensures packets == old(packets) + Emitted(conn.c, s, e) && |parcels| == |packets|
      ensures parcels == old(parcels) + if w.Some? then [Parcel(w.value, now)] else []
    {
      hide Live, Step, Young, Matches, Enabled, Defined, PendingYoung, OnTheWay, Next, Emitted;
      hide Connection.Connection.Valid;
      StepFacts(conn.c, s, e);
      RunStep(conn.c, ss, es, e);
      AllAge(conn.c, s, e, parcels, packets, now);
      PendingAges(conn.c, s, e, now - takenAt);
      ss, es := ss + [conn.sys], es + [e];
      now := now + 1;
      if taken {
        takenAt := now;
      }
      if w.Some? {
        Joins(conn.c, conn.sys, parcels, packets, now, w.value, p);
        parcels, packets := parcels + [Parcel(w.value, now)], packets + [p];
      }
      SameNumber(conn.sys);
    }

    lemma SameNumber(s: Sys)
      requires Channel(s)
      ensures |parcels| == |packets|
    {
    }

    method ToSender(data: seq<Byte>)
      requires conn.Valid()
      modifies conn.Objects()
      ensures conn.Valid() && fresh(conn.Objects() - old(conn.Objects())) && unchanged(this)
      ensures conn.sys == Step(conn.c, old(conn.sys), Submitting(data))
      ensures conn.delivered == old(conn.delivered)
    {
      hide Connection.Connection.Valid, Live, Step, Flat;
      conn.Submit(data);
    }

    /** The application hands over data. */
    method Submit(data: seq<Byte>)
      requires Valid()
      modifies this, conn.Objects()
      ensures Valid() && fresh(conn.Objects() - old(conn.Objects()))
      ensures submitted == old(submitted) + data && conn.delivered == old(conn.delivered)
      ensures Made(Submitting(data))
    {
      hide Connection.Connection.Objects, Connection.Connection.Valid, Live, Step, Channel, Flat;
      ghost var s := conn.sys;
      conn.State();
      StreamGrows(conn.c, s, data);
      ToSender(data);
      Record(s, Submitting(data), None, Ack2Pkt(0), false);
      submitted := submitted + data;
    }

    /** packData takes the least lost number, unless it still has one to look up. */
    method TakeLost()
      requires Valid()
      modifies this, conn.Objects()
      ensures Valid() && fresh(conn.Objects() - old(conn.Objects()))
      ensures submitted == old(submitted) && conn.delivered == old(conn.delivered)
      ensures if old(conn.taken) != -1 then Idle() else Made(TakingLost)
    {
      hide Connection.Connection.Valid, Live, Step, Channel, Flat;
      ghost var s := conn.sys;
      conn.State();
      if conn.taken != -1 {
        return;
      }
      conn.TakeLostNumber();
      Record(s, TakingLost, None, Ack2Pkt(0), true);
    }

    method SendLost()
      requires Valid()
      modifies this, conn.Objects()
      ensures Valid() && fresh(conn.Objects() - old(conn.Objects()))
      ensures submitted == old(submitted) && conn.delivered == old(conn.delivered)
      ensures if old(conn.taken) == -1 || old(now) - old(takenAt) > LIFETIME then Idle() else Made(SendingLost)
    {
      hide Connection.Connection.Valid, Live, Step, Channel, Flat;
      ghost var s := conn.sys;
      conn.State();
      if conn.taken == -1 || now - takenAt > LIFETIME {
        return;
      }
      PendingIsRecent(conn.c, s, now - takenAt);
      var seqno, payload := conn.SendLost();
      var w := None;
      if payload.Some? {
        w := Some(DataWire(seqno, payload.value));
        LostSent(conn.c, s);
      }
      Record(s, SendingLost, w, Data(s.pending.value, Load(payload)), false);
    }

    method SendNew(congestion: int)
      requires Valid()
      modifies this, conn.Objects()
      ensures Valid() && fresh(conn.Objects() - old(conn.Objects()))
      ensures submitted == old(submitted) && conn.delivered == old(conn.delivered)
      ensures if old(conn.taken) != -1 then Idle() else Made(SendingNew(congestion))
    {
      hide Connection.Connection.Valid, Live, Step, Channel, Flat;
      ghost var s := conn.sys;
      conn.State();
      if conn.taken != -1 {
        return;
      }
      var seqno, payload := conn.SendNewPacket(congestion);
      var w := None;
      if payload.Some? {
        w := Some(DataWire(seqno, payload.value));
        NewSent(conn.c, s, congestion);
      }
      Record(s, SendingNew(congestion), w, Data(conn.sys.snd.curr, Load(payload)), false);
    }

    method TimeOut()
      requires Valid()
      modifies this, conn.Objects()
      ensures Valid() && fresh(conn.Objects() - old(conn.Objects()))
      ensures submitted == old(submitted) && conn.delivered == old(conn.delivered)
      ensures Made(TimingOut)
    {
      hide Connection.Connection.Valid, Live, Step, Channel, Flat;
      ghost var s := conn.sys;
      conn.State();
      conn.TimeOut();
      Record(s, TimingOut, None, Ack2Pkt(0), false);
    }

    method SendLite()
      requires Valid()
      modifies this, conn.Objects()
      ensures Valid() && fresh(conn.Objects() - old(conn.Objects()))
      ensures submitted == old(submitted) && conn.delivered == old(conn.delivered)
      ensures Made(SendingLiteAck)
    {
      hide Connection.Connection.Valid, Live, Step, Channel, Flat, SendLiteAck, Young;
      ghost var s := conn.sys;
      conn.State();
      var ack := conn.LiteAckSend();
      var w := None;
      ghost var a := 0;
      LiteLeaves(conn.c, s);
      if ack.Some? {
        w := Some(LiteWire(ack.value));
        a := SendLiteAck(s.rcv).value;
        LiteSent(conn.c, s);
      }
      Record(s, SendingLiteAck, w, LiteAckPkt(a), false);
    }

    method SendAck(quiet: bool)
      requires Valid()
      modifies this, conn.Objects()
      ensures Valid() && fresh(conn.Objects() - old(conn.Objects()))
      ensures submitted == old(submitted) && conn.delivered == old(conn.delivered)
      ensures Made(SendingAck(quiet))
    {
      hide Connection.Connection.Valid, Live, Step, Channel, Flat, ReceiverModel.SendAck, Young, Matches, AckOf;
      ghost var s := conn.sys;
      conn.State();
      var ack := conn.AckSend(quiet);
      var w := None;
      ghost var p := Ack2Pkt(0);
      if ack.Some? {
        w := Some(AckWire(ack.value.0, ack.value.1, ack.value.2));
        AckSent(conn.c, s, quiet);
        p := AckOf(conn.sys, s, quiet, conn.c.acks);
      }
      Record(s, SendingAck(quiet), w, p, false);
    }

    method ArriveData(i: nat)
      requires Valid()
      requires i < |parcels| && now - parcels[i].born <= LIFETIME && parcels[i].wire.DataWire?
      modifies this, conn.Objects()
      ensures Valid() && fresh(conn.Objects() - old(conn.Objects()))
      ensures submitted == old(submitted) && conn.delivered == old(conn.delivered)
      ensures i < |old(packets)| && old(packets[i]).Data? && Made(ArrivalOf(old(packets[i]), false))
    {
      hide Connection.Connection.Valid, Live, Step, Channel, Flat, Young, Arrive, EncodeRange;
      hide Names, Connection.Recent, PendingYoung;
      conn.State();
      Delivered(i);
      ghost var s, x := conn.sys, packets[i].x;
      var w := parcels[i].wire;
      ghost var e := DataArrives(x, w.payload);
      YoungIsRecent(conn.c, s, e, packets[i], now - parcels[i].born);
      var words := conn.DataArrive(w.seqno, w.payload, x);
      var back := None;
      ghost var p := Ack2Pkt(0);
      SilentOrNot(conn.c, s, x, w.payload);
      if words != [] {
        back := Some(NakWire(words));
        NakSent(conn.c, s, x, w.payload);
        p := NakPkt([Arrive(s.rcv, x, w.payload).1.value]);
      }
      Record(s, e, back, p, false);
    }

    method ArriveLite(i: nat)
      requires Valid()
      requires i < |parcels| && now - parcels[i].born <= LIFETIME && parcels[i].wire.LiteWire?
      modifies this, conn.Objects()
      ensures Valid() && fresh(conn.Objects() - old(conn.Objects()))
      ensures submitted == old(submitted) && conn.delivered == old(conn.delivered)
      ensures i < |old(packets)| && old(packets[i]).LiteAckPkt? && Made(ArrivalOf(old(packets[i]), false))
    {
      hide Connection.Connection.Valid, Live, Step, Channel, Flat, Young, Connection.Recent, PendingYoung;
      conn.State();
      Delivered(i);
      ghost var s, e := conn.sys, LiteAckArrives(packets[i].a);
      YoungIsRecent(conn.c, s, e, packets[i], now - parcels[i].born);
      conn.LiteAckArrive(parcels[i].wire.ack, packets[i].a);
      Record(s, e, None, Ack2Pkt(0), false);
    }

    /** A full acknowledgement arrives; `confirm` says whether it is answered. */
    method ArriveAck(i: nat, confirm: bool)
      requires Valid()
      requires i < |parcels| && now - parcels[i].born <= LIFETIME && parcels[i].wire.AckWire?
      modifies this, conn.Objects()
      ensures Valid() && fresh(conn.Objects() - old(conn.Objects()))
      ensures submitted == old(submitted) && conn.delivered == old(conn.delivered)
      ensures i < |old(packets)| && Made(ArrivalOf(old(packets[i]), confirm))
    {
      hide Connection.Connection.Valid, Live, Step, Channel, Flat, Young, Connection.Recent, PendingYoung;
      conn.State();
      Delivered(i);
      ghost var s, p, k := conn.sys, packets[i], now - parcels[i].born;
      var w := parcels[i].wire;
      ghost var e := AckArrives(p.n, p.a, p.w, confirm);
      YoungIsRecent(conn.c, s, e, p, k);
      conn.AckArrive(w.ackno, w.ack, w.window, confirm, p.n, p.a);
      var back := None;
      if confirm {
        back := Some(Ack2Wire(w.ackno));
        Ack2Sent(conn.c, s, e, k);
      }
      Record(s, e, back, Ack2Pkt(p.n), false);
    }

    method ArriveNak(i: nat)
      requires Valid()
      requires i < |parcels| && now - parcels[i].born <= LIFETIME && parcels[i].wire.NakWire?
      modifies this, conn.Objects()
      ensures Valid() && fresh(conn.Objects() - old(conn.Objects()))
      ensures submitted == old(submitted) && conn.delivered == old(conn.delivered)
      ensures i < |old(packets)| && old(packets[i]).NakPkt? && Made(ArrivalOf(old(packets[i]), false))
    {
      hide Connection.Connection.Valid, Live, Step, Channel, Flat, Young, Names, Connection.Recent, PendingYoung;
      conn.State();
      Delivered(i);
      ghost var s, e := conn.sys, NakArrives(packets[i].report);
      YoungIsRecent(conn.c, s, e, packets[i], now - parcels[i].born);
      conn.NakArrive(parcels[i].wire.words, packets[i].report);
      Record(s, e, None, Ack2Pkt(0), false);
    }

    method ArriveAck2(i: nat, late: bool)
      requires Valid()
      requires i < |parcels| && now - parcels[i].born <= LIFETIME && parcels[i].wire.Ack2Wire?
      modifies this, conn.Objects()
      ensures Valid() && fresh(conn.Objects() - old(conn.Objects()))
      ensures submitted == old(submitted) && conn.delivered == old(conn.delivered)
      ensures i < |old(packets)| && Made(ArrivalOf(old(packets[i]), late))
    {
      hide Connection.Connection.Valid, Live, Step, Channel, Flat, Young, Connection.Recent, PendingYoung;
      conn.State();
      Delivered(i);
      ghost var s, e := conn.sys, Ack2Arrives(packets[i].n, late);
      YoungIsRecent(conn.c, s, e, packets[i], now - parcels[i].born);
      conn.Ack2Arrive(parcels[i].wire.ackno, late, packets[i].n);
      Record(s, e, None, Ack2Pkt(0), false);
    }

    /** What there is to know of a packet that arrives. */
    lemma Delivered(i: nat)
      requires Channel(conn.sys) && i < |parcels|
      ensures |packets| == |parcels| && packets[i] in conn.sys.net && Matches(parcels[i].wire, packets[i])
      ensures parcels[i].born <= now && Young(conn.c, conn.sys, packets[i], now - parcels[i].born)
    {
    }

    /** The packet sent as number `i` arrives, for the first time or again, unless it is too old. */
    method Arriving(i: nat, flag: bool)
      requires Valid()
      modifies this, conn.Objects()
      ensures Valid() && fresh(conn.Objects() - old(conn.Objects()))
      ensures submitted == old(submitted) && conn.delivered == old(conn.delivered)
      ensures if i >= |old(parcels)| || old(now) - old(parcels[i]).born > LIFETIME then Idle()
              else i < |old(packets)| && Made(ArrivalOf(old(packets[i]), flag))
    {
      hide Valid, Connection.Connection.Objects;
      if i >= |parcels| {
        return;
      }
      if now - parcels[i].born > LIFETIME {
        return;
      }
      match parcels[i].wire
      case DataWire(_, _) => ArriveData(i);
      case LiteWire(_) => ArriveLite(i);
      case AckWire(_, _, _) => ArriveAck(i, flag);
      case NakWire(_) => ArriveNak(i);
      case Ack2Wire(_) => ArriveAck2(i, flag);
    }

    /** The application reads. */
    method Read(n: int) returns (data: seq<Byte>)
      requires Valid()
      modifies this, conn.Objects()
      ensures Valid() && fresh(conn.Objects() - old(conn.Objects()))
      ensures submitted == old(submitted) && conn.delivered == old(conn.delivered) + data
      ensures Made(Reading(n))
    {
      hide Connection.Connection.Valid, Live, Step, Channel, Flat;
      ghost var s := conn.sys;
      conn.State();
      data := conn.Read(n);
      Record(s, Reading(n), None, Ack2Pkt(0), false);
    }

    /** What has been read is a prefix of what has been handed over, as in the run. */
    lemma ReadIsPrefix()
      requires Valid()
      ensures conn.delivered <= submitted
      ensures ConfigOk(conn.c) && IsRun(conn.c, ss, es)
      ensures conn.delivered == ss[|es|].delivered && submitted == Submitted(es)
    {
      hide Connection.Connection.Valid, Channel, Flat, Live, Next;
      conn.State();
      conn.DeliveredIsPrefix();
      StreamIsSubmitted(conn.c, ss, es);
    }

    /** The calls that change nothing: the packet is not there or too old, the number was taken
        already, or none was taken, or too long ago. */
    predicate Skipped(call: Call)
      reads this, conn
    {
      match call
      case Take => conn.taken != -1
      case SendFresh(_) => conn.taken != -1
      case Resend => conn.taken == -1 || now - takenAt > LIFETIME
      case Deliver(i, _) => i >= |parcels| || now - parcels[i].born > LIFETIME
      case _ => false
    }

    /** The step of the system that a call makes. */
    ghost function EventOf(call: Call): Event
      reads `packets
    {
      match call
      case Hand(data) => Submitting(data)
      case Take => TakingLost
      case Resend => SendingLost
      case SendFresh(congestion) => SendingNew(congestion)
      case Expire => TimingOut
      case Deliver(i, flag) => if i < |packets| then ArrivalOf(packets[i], flag) else TimingOut
      case AckLite => SendingLiteAck
      case AckFull(quiet) => SendingAck(quiet)
      case ReadUp(n) => Reading(n)
    }

    lemma Delivery()
      requires Valid()
      ensures ConfigOk(conn.c) && conn.delivered == conn.sys.delivered
      ensures conn.taken == -1 <==> conn.sys.pending.None?
    {
      hide Connection.Connection.Valid;
      conn.State();
    }

    /** Every call makes exactly its step, or is one of those that change nothing. */
    method Do(call: Call) returns (data: seq<Byte>)
      requires Valid()
      modifies this, conn.Objects()
      ensures Valid() && fresh(conn.Objects() - old(conn.Objects()))
      ensures submitted == old(submitted) + Handed(call) && conn.delivered == old(conn.delivered) + data
      ensures if old(Skipped(call)) then Idle() else Made(old(EventOf(call)))
    {
      hide Valid, Connection.Connection.Objects;
      data := [];
      match call
      case Hand(bytes) => Submit(bytes);
      case Take => TakeLost();
      case Resend => SendLost();
      case SendFresh(congestion) => SendNew(congestion);
      case Expire => TimeOut();
      case Deliver(i, flag) => Arriving(i, flag);
      case AckLite => SendLite();
      case AckFull(quiet) => SendAck(quiet);
      case ReadUp(n) => data := Read(n);
    }

    method DoAll(calls: seq<Call>) returns (read: seq<Byte>)
      requires Valid()
      modifies this, conn.Objects()
      ensures Valid() && fresh(conn.Objects() - old(conn.Objects()))
      ensures submitted == old(submitted) + AllHanded(calls) && conn.delivered == old(conn.delivered) + read
      decreases |calls|
    {
      hide Valid, Handed;
      if calls == [] {
        return [];
      }
      var data := Do(calls[0]);
      var rest := DoAll(calls[1..]);
      Regroup(old(submitted), Handed(calls[0]), AllHanded(calls[1..]));
      Regroup(old(conn.delivered), data, rest);
      read := data + rest;
    }
  }

  /** What can happen: the application's calls, the steps the endpoints take on their own, and
      the arrival of any packet sent so far. */
  datatype Call =
    | Hand(data: seq<Byte>)
    | Take
    | Resend
    | SendFresh(congestion: int)
    | Expire
    | Deliver(i: nat, flag: bool)
    | AckLite
    | AckFull(quiet: bool)
    | ReadUp(n: int)

  function Handed(call: Call): seq<Byte> {
    if call.Hand? then call.data else []
  }

  function AllHanded(calls: seq<Call>): seq<Byte> {
    if calls == [] then [] else Handed(calls[0]) + AllHanded(calls[1..])
  }

  /** A connection is opened and anything happens.  The objects go through a run of the system,
      what the application reads is what the run delivers, and that is a prefix of what has been
      handed over. */
  method Play(isn: SeqNum, mss: int, window: int, bufSize: int, calls: seq<Call>)
    returns (read: seq<Byte>, ghost ss: seq<Sys>, ghost es: seq<Event>)
    requires mss > 0 && 2 <= bufSize <= window && 2 * window < SEQ_NO_TH
    ensures read <= AllHanded(calls)
    ensures var c := Config(isn, mss, window, bufSize, 1023);
      ConfigOk(c) && IsRun(c, ss, es) && read == ss[|es|].delivered && AllHanded(calls) == Submitted(es)
  {
    hide Network.Valid, Connection.Connection.Objects, AllHanded, Next, Submitted;
    var network := Network.Open(isn, mss, window, bufSize);
    read := network.DoAll(calls);
    network.ReadIsPrefix();
    ss, es := network.ss, network.es;
    assert [] + AllHanded(calls) == AllHanded(calls) && [] + read == read;
  }

  /** The first packet on its way: handed over and sent ... */
  lemma OneSent(c: Config, data: Payload)
    requires ConfigOk(c) && 0 < |data| <= c.mss
    ensures var s1 := Step(c, Start(c), Submitting(data));
      && Defined(s1, SendingNew(c.window)) && Emitted(c, s1, SendingNew(c.window)) == [Data(c.isn, data)]
      && Step(c, s1, SendingNew(c.window)).rcv == InitRcv(c.isn, c.bufSize)
      && Step(c, s1, SendingNew(c.window)).delivered == [] && s1.pending.None?
      && Emitted(c, Start(c), Submitting(data)) == []
  {
    assert Submit(InitSnd(c.isn, c.window), Chunks(data, c.mss)).blocks == [data];
  }

  /** ... arrived and acknowledged ... */
  lemma OneArrived(c: Config, s: Sys, data: Payload)
    requires ConfigOk(c) && s.rcv == InitRcv(c.isn, c.bufSize) && s.delivered == []
    ensures var t := Step(c, Step(c, s, DataArrives(c.isn, data)), SendingAck(false));
      t.rcv.buf == RcvBuf(c.bufSize, c.isn, c.isn + 1, map[c.isn := data], 0) && t.delivered == []
  {
    var s3 := Step(c, s, DataArrives(c.isn, data));
    assert NextAck(s3.rcv) == c.isn + 1;
  }

  /** ... and read. */
  lemma OneRead(c: Config, s: Sys, data: Payload)
    requires ConfigOk(c) && s.rcv.buf == RcvBuf(c.bufSize, c.isn, c.isn + 1, map[c.isn := data], 0)
    requires s.delivered == []
    ensures Defined(s, Reading(|data|)) && Step(c, s, Reading(|data|)).delivered == data
  {
    assert Line(s.rcv.buf.held, c.isn + 1, c.isn + 1) == [];
    assert Readable(s.rcv.buf) == data;
    ReadIsTake(s.rcv.buf, |data|);
    hide Read;
  }

  /** A packet's worth of data goes all the way. */
  method OneAcross(isn: SeqNum, mss: int, window: int, bufSize: int, data: seq<Byte>) returns (read: seq<Byte>)
    requires mss > 0 && 2 <= bufSize <= window && 2 * window < SEQ_NO_TH && 0 < |data| <= mss
    ensures read == data
  {
    hide Network.Valid, Connection.Connection.Objects, Step, Emitted, Start, Enabled;
    var network := Network.Open(isn, mss, window, bufSize);
    OneSent(network.conn.c, data);
    network.Submit(data);
    network.Delivery();
    network.SendNew(window);
    OneArrived(network.conn.c, network.conn.sys, data);
    ghost var s2 := network.conn.sys;
    assert network.packets == [Data(isn, data)];
    assert network.parcels[0].born == network.now;
    network.Arriving(0, false);
    assert network.conn.sys == Step(network.conn.c, s2, DataArrives(isn, data));
    network.SendAck(false);
    OneRead(network.conn.c, network.conn.sys, data);
    read := network.Read(|data|);
    network.Delivery();
  }

  function Load(payload: Option<Payload>): Payload {
    if payload.Some? then payload.value else []
  }

  lemma NamesOne(r: Range)
    ensures Names(EncodeRange(r), [r])
  {
    EncodeOne(r);
    DecodeEncode([r]);
  }

  lemma StreamGrows(c: Config, s: Sys, data: seq<Byte>)
    requires ConfigOk(c)
    ensures Flat(Step(c, s, Submitting(data)).stream) == Flat(s.stream) + data
  {
    hide Flat, Chunks;
    FlatChunks(data, c.mss);
    FlatConcat(s.stream, Chunks(data, c.mss));
  }
}
