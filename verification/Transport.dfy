/** Two endpoints and the channel between them: data flows from the sender to the receiver,
    acknowledgements and loss reports flow back.  The channel is the set of packets ever sent,
    any of which may arrive at any time, any number of times, in any order, or never. */
module Transport {
  import opened SeqNo
  import opened Bytes
  import opened LossNodes
  import opened RcvBuffer
  import opened SndBuffer
  import opened AckWindow
  import opened SenderModel
  import opened ReceiverModel

  datatype Packet =
    | Data(x: int, payload: Payload)
    | LiteAckPkt(a: int)
    | AckPkt(n: int, a: int, w: int)
    | Ack2Pkt(n: int)
    | NakPkt(report: seq<Range>)

  /** `window` bounds the advertised windows, `bufSize` is the receiver's ring size, `acks`
      the number of acknowledgements it remembers. */
  datatype Config = Config(isn: int, mss: int, window: int, bufSize: int, acks: int)

  predicate ConfigOk(c: Config) {
    c.isn >= 0 && c.mss > 0 && 2 <= c.bufSize <= c.window && 2 * c.window < SEQ_NO_TH && c.acks >= 1
  }

  /** `pending` is the lost position packData has taken off the list but not yet looked up;
      `stream` is everything the sending application has handed over, `delivered` everything
      the receiving one has read. */
  datatype Sys = Sys(snd: Snd, pending: Option<int>, rcv: Rcv, net: set<Packet>,
                     stream: seq<Payload>, delivered: seq<Byte>)

  datatype Event =
    | Submitting(data: seq<Byte>)
    | TakingLost
    | SendingLost
    | SendingNew(congestion: int)
    | TimingOut
    | DataArrives(x: int, payload: Payload)
    | LiteAckArrives(a: int)
    | AckArrives(n: int, a: int, w: int, confirm: bool)
    | NakArrives(report: seq<Range>)
    | Ack2Arrives(n: int, late: bool)
    | SendingLiteAck
    | SendingAck(quiet: bool)
    | Reading(n: int)

  function Start(c: Config): Sys {
    Sys(InitSnd(c.isn, c.window), None, InitRcv(c.isn, c.bufSize), {}, [], [])
  }

  ghost predicate Enabled(s: Sys, e: Event) {
    match e
    case TakingLost => s.pending.None?
    case SendingLost => s.pending.Some?
    case SendingNew(_) => s.pending.None?
    case DataArrives(x, p) => Data(x, p) in s.net
    case LiteAckArrives(a) => LiteAckPkt(a) in s.net
    case AckArrives(n, a, w, _) => AckPkt(n, a, w) in s.net
    case NakArrives(report) => NakPkt(report) in s.net
    case Ack2Arrives(n, _) => Ack2Pkt(n) in s.net
    case _ => true
  }

  /** The code taking the step stays inside its buffers. */
  predicate Defined(s: Sys, e: Event) {
    match e
    case SendingLost => s.pending.Some? && s.pending.value - s.snd.dataAck < |s.snd.blocks|
    case SendingNew(_) => 0 <= s.snd.sent
    case AckArrives(_, a, _, _) => a - s.snd.dataAck <= |s.snd.blocks| || a > s.snd.curr + 1
    case Reading(_) => BufOk(s.rcv.buf)
    case _ => true
  }

  ghost function Step(c: Config, s: Sys, e: Event): Sys
    requires ConfigOk(c) && Defined(s, e)
  {
    match e
    case Submitting(data) =>
      s.(snd := Submit(s.snd, Chunks(data, c.mss)), stream := s.stream + Chunks(data, c.mss))
    case TakingLost =>
      var (snd, x) := TakeLost(s.snd);
      s.(snd := snd, pending := x)
    case SendingLost =>
      var p := LookUp(s.snd, s.pending.value);
      s.(pending := None, net := if p.Some? then s.net + {Data(s.pending.value, p.value)} else s.net)
    case SendingNew(congestion) =>
      var (snd, p) := SendNew(s.snd, congestion);
      s.(snd := snd, net := if p.Some? then s.net + {Data(snd.curr, p.value)} else s.net)
    case TimingOut =>
      s.(snd := Timeout(s.snd))
    case DataArrives(x, p) =>
      var (rcv, lost) := Arrive(s.rcv, x, p);
      s.(rcv := rcv, net := if lost.Some? then s.net + {NakPkt([lost.value])} else s.net)
    case LiteAckArrives(a) =>
      s.(snd := LiteAck(s.snd, a))
    case AckArrives(n, a, w, confirm) =>
      s.(snd := FullAck(s.snd, a, w), net := if confirm then s.net + {Ack2Pkt(n)} else s.net)
    case NakArrives(report) =>
      s.(snd := Nak(s.snd, report))
    case Ack2Arrives(n, late) =>
      s.(rcv := OnAck2(s.rcv, n, late))
    case SendingLiteAck =>
      var a := SendLiteAck(s.rcv);
      s.(net := if a.Some? then s.net + {LiteAckPkt(a.value)} else s.net)
    case SendingAck(quiet) =>
      var (rcv, sent) := SendAck(s.rcv, quiet, c.acks);
      s.(rcv := rcv,
         net := if sent.Some? then s.net + {AckPkt(rcv.ackSeqNo, sent.value.0, sent.value.1)} else s.net)
    case Reading(n) =>
      var (rcv, bytes) := ReadBytes(s.rcv, n);
      s.(rcv := rcv, delivered := s.delivered + bytes)
  }

  // ---------------------------------------------------------------- the invariant

  /** Every packet on the channel tells the truth about the endpoint that sent it. */
  ghost predicate Truthful(c: Config, s: Sys, p: Packet) {
    match p
    case Data(x, payload) => c.isn <= x <= s.snd.curr && x - c.isn < |s.stream| && payload == s.stream[x - c.isn]
    case LiteAckPkt(a) => a <= NextAck(s.rcv)
    case AckPkt(n, a, w) => a <= NextAck(s.rcv) && w <= c.window
    case Ack2Pkt(_) => true
    case NakPkt(report) => forall i :: 0 <= i < |report| ==> report[i].lo <= report[i].hi <= s.rcv.curr
  }

  /** The sender holds exactly the part of the stream it has not released. */
  predicate SenderHolds(c: Config, s: Sys) {
    && c.isn <= s.snd.dataAck && |s.stream| == s.snd.dataAck - c.isn + |s.snd.blocks|
    && s.snd.blocks == s.stream[s.snd.dataAck - c.isn..]
  }

  /** The receiver holds packets of the stream, under their own positions. */
  predicate ReceiverHolds(c: Config, s: Sys)
    requires RcvOk(s.rcv)
  {
    && c.isn <= s.rcv.buf.start && s.rcv.curr - c.isn < |s.stream|
    && forall x :: x in s.rcv.buf.held ==> s.rcv.buf.held[x] == s.stream[x - c.isn]
  }

  ghost predicate SysOk(c: Config, s: Sys) {
    && SndOk(s.snd, c.window) && !s.snd.broken
    && RcvOk(s.rcv) && s.rcv.buf.size == c.bufSize
    && SenderHolds(c, s)
    && (s.pending.Some? ==> s.pending.value <= s.snd.curr)
    && s.rcv.curr <= s.snd.curr
    && ReceiverHolds(c, s)
    && s.snd.ack <= NextAck(s.rcv)
    && s.delivered + Readable(s.rcv.buf) == Flat(s.stream[..s.rcv.buf.ack - c.isn])
    && (forall p :: p in s.net ==> Truthful(c, s, p))
  }

  lemma StartOk(c: Config)
    requires ConfigOk(c)
    ensures SysOk(c, Start(c))
  {
    hide NextAck, Flat, RcvOk, SndOk, Readable, Truthful, SenderHolds, ReceiverHolds;
    InitSndOk(c.isn, c.window);
    InitRcvOk(c.isn, c.bufSize);
    StartHolds(c);
    StartUnread(c);
  }

  lemma StartHolds(c: Config)
    requires ConfigOk(c) && RcvOk(Start(c).rcv)
    ensures SenderHolds(c, Start(c)) && ReceiverHolds(c, Start(c))
  {
    hide RcvOk;
  }

  lemma StartUnread(c: Config)
    requires ConfigOk(c) && RcvOk(Start(c).rcv)
    ensures var s := Start(c); s.delivered + Readable(s.rcv.buf) == Flat(s.stream[..s.rcv.buf.ack - c.isn])
  {
    hide RcvOk, Flat, Readable;
    NoBytes();
    NothingReadable(Start(c).rcv);
    assert Start(c).stream[..0] == [];
  }

  lemma NothingReadable(r: Rcv)
    requires RcvOk(r) && r.buf.start == r.buf.ack
    ensures Readable(r.buf) == []
  {
  }

  lemma NoBytes()
    ensures Flat([]) == []
  {
  }

  lemma AckBounds(c: Config, s: Sys)
    requires SysOk(c, s)
    ensures c.isn <= s.rcv.buf.start <= s.rcv.buf.ack <= s.rcv.curr + 1 <= c.isn + |s.stream|
    ensures s.rcv.buf.ack <= NextAck(s.rcv) <= s.rcv.curr + 1
    ensures forall x :: x in s.rcv.buf.held ==> c.isn <= x < c.isn + |s.stream|
  {
    NextAckIsFirstGap(s.rcv);
  }

  // ---------------------------------------------------------------- every step keeps it

  /** What was true of a packet stays true as the endpoints advance. */
  lemma StillTruthful(c: Config, s: Sys, s': Sys)
    requires forall p :: p in s.net ==> Truthful(c, s, p)
    requires s.stream <= s'.stream
    requires s.snd.curr <= s'.snd.curr && NextAck(s.rcv) <= NextAck(s'.rcv) && s.rcv.curr <= s'.rcv.curr
    ensures forall p :: p in s.net ==> Truthful(c, s', p)
  {
  }

  /** What the receiver holds in a gap-free run of positions is that part of the stream. */
  lemma {:induction false} LineIsStream(h: map<int, Payload>, stream: seq<Payload>, isn: int, a: int, b: int)
    requires isn <= a <= b <= isn + |stream|
    requires forall x :: a <= x < b ==> x in h && h[x] == stream[x - isn]
    ensures Line(h, a, b) == Flat(stream[a - isn..b - isn])
    decreases b - a
  {
    if a < b {
      LineIsStream(h, stream, isn, a + 1, b);
      var part := stream[a - isn..b - isn];
      assert part[0] == stream[a - isn] && part[1..] == stream[a + 1 - isn..b - isn];
    }
  }

  lemma SubmittingKeeps(c: Config, s: Sys, data: seq<Byte>)
    requires ConfigOk(c) && SysOk(c, s)
    ensures SysOk(c, Step(c, s, Submitting(data)))
  {
    hide RcvOk, Readable, NextAck, Flat, Chunks;
    var s' := Step(c, s, Submitting(data));
    SubmitOk(s.snd, c.window, Chunks(data, c.mss));
    AckBounds(c, s);
    var k := s.snd.dataAck - c.isn;
    assert s'.stream[k..] == s.stream[k..] + Chunks(data, c.mss);
    var m := s.rcv.buf.ack - c.isn;
    assert s'.stream[..m] == s.stream[..m];
    StillTruthful(c, s, s');
  }

  lemma TakingLostKeeps(c: Config, s: Sys)
    requires ConfigOk(c) && SysOk(c, s) && Enabled(s, TakingLost)
    ensures SysOk(c, Step(c, s, TakingLost))
  {
    hide RcvOk, Readable, NextAck, Flat;
    var s' := Step(c, s, TakingLost);
    StillTruthful(c, s, s');
  }

  lemma SendingLostKeeps(c: Config, s: Sys)
    requires ConfigOk(c) && SysOk(c, s) && Enabled(s, SendingLost)
    ensures SysOk(c, Step(c, s, SendingLost))
  {
    hide RcvOk, Readable, NextAck, Flat;
    var s' := Step(c, s, SendingLost);
    StillTruthful(c, s, s');
  }

  lemma SendingNewKeeps(c: Config, s: Sys, congestion: int)
    requires ConfigOk(c) && SysOk(c, s) && Enabled(s, SendingNew(congestion))
    ensures SysOk(c, Step(c, s, SendingNew(congestion)))
  {
    hide RcvOk, Readable, NextAck, Flat;
    var s' := Step(c, s, SendingNew(congestion));
    StillTruthful(c, s, s');
  }

  lemma TimingOutKeeps(c: Config, s: Sys)
    requires ConfigOk(c) && SysOk(c, s)
    ensures SysOk(c, Step(c, s, TimingOut))
  {
    hide RcvOk, Readable, NextAck, Flat;
    var s' := Step(c, s, TimingOut);
    StillTruthful(c, s, s');
  }

  lemma DataArrivesKeeps(c: Config, s: Sys, x: int, payload: Payload)
    requires ConfigOk(c) && SysOk(c, s) && Enabled(s, DataArrives(x, payload))
    ensures SysOk(c, Step(c, s, DataArrives(x, payload)))
  {
    hide RcvOk, Readable, Arrive, SndOk, NextAck, Accepts, Flat;
    var s' := Step(c, s, DataArrives(x, payload));
    ArriveOk(s.rcv, x, payload);
    assert Truthful(c, s, Data(x, payload));
    ArriveStart(s.rcv, x, payload);
    StillTruthful(c, s, s');
  }

  lemma ArriveStart(r: Rcv, x: int, p: Payload)
    requires RcvOk(r)
    ensures Arrive(r, x, p).0.buf.start == r.buf.start && Arrive(r, x, p).0.buf.size == r.buf.size
    ensures Arrive(r, x, p).1.Some? ==> Arrive(r, x, p).0.curr == x
    ensures Arrive(r, x, p).0.curr == r.curr || Arrive(r, x, p).0.curr == x
  {
  }

  lemma LiteAckArrivesKeeps(c: Config, s: Sys, a: int)
    requires ConfigOk(c) && SysOk(c, s) && Enabled(s, LiteAckArrives(a))
    ensures SysOk(c, Step(c, s, LiteAckArrives(a)))
  {
    hide RcvOk, Readable, Flat, BufOk, NextAck;
    var s' := Step(c, s, LiteAckArrives(a));
    assert Truthful(c, s, LiteAckPkt(a));
    NextAckIsFirstGap(s.rcv);
    StillTruthful(c, s, s');
  }

  lemma AckArrivesKeeps(c: Config, s: Sys, n: int, a: int, w: int, confirm: bool)
    requires ConfigOk(c) && SysOk(c, s) && Enabled(s, AckArrives(n, a, w, confirm))
    ensures SysOk(c, Step(c, s, AckArrives(n, a, w, confirm)))
  {
    hide RcvOk, Readable, NextAck, Flat;
    AckInRange(c, s, n, a, w);
    FullAckOk(s.snd, c.window, a, w);
    var s' := Step(c, s, AckArrives(n, a, w, confirm));
    StillTruthful(c, s, s');
    hide Truthful, ReceiverHolds;
    assert forall p :: p in s'.net ==> p in s.net || p == Ack2Pkt(n);
    Ack2Truthful(c, s', n);
  }

  lemma Ack2Truthful(c: Config, s: Sys, n: int)
    ensures Truthful(c, s, Ack2Pkt(n))
  {
  }

  /** An acknowledgement under way names nothing beyond what was sent. */
  lemma AckInRange(c: Config, s: Sys, n: int, a: int, w: int)
    requires SysOk(c, s) && AckPkt(n, a, w) in s.net
    ensures a <= NextAck(s.rcv) && a <= s.snd.curr + 1 && w <= c.window
  {
    assert Truthful(c, s, AckPkt(n, a, w));
    AckBounds(c, s);
  }

  lemma NakArrivesKeeps(c: Config, s: Sys, report: seq<Range>)
    requires ConfigOk(c) && SysOk(c, s) && Enabled(s, NakArrives(report))
    ensures SysOk(c, Step(c, s, NakArrives(report)))
  {
    hide RcvOk, Readable, NextAck, Flat, NakLoss;
    var s' := Step(c, s, NakArrives(report));
    assert Truthful(c, s, NakPkt(report));
    NakOk(s.snd, c.window, report);
    NakLossExact(s.snd.loss, s.snd.ack, s.snd.curr, report);
    StillTruthful(c, s, s');
  }

  lemma Ack2ArrivesKeeps(c: Config, s: Sys, n: int, late: bool)
    requires ConfigOk(c) && SysOk(c, s) && Enabled(s, Ack2Arrives(n, late))
    ensures SysOk(c, Step(c, s, Ack2Arrives(n, late)))
  {
    hide RcvOk, Readable, Flat, SndOk, BufOk;
    var s' := Step(c, s, Ack2Arrives(n, late));
    OnAck2Ok(s.rcv, n, late);
    StillTruthful(c, s, s');
  }

  lemma SendingLiteAckKeeps(c: Config, s: Sys)
    requires ConfigOk(c) && SysOk(c, s)
    ensures SysOk(c, Step(c, s, SendingLiteAck))
  {
    hide Readable, Flat, SndOk, BufOk;
    var s' := Step(c, s, SendingLiteAck);
    StillTruthful(c, s, s');
  }

  lemma FlatGrows(ps: seq<Payload>, i: int, j: int)
    requires 0 <= i <= j <= |ps|
    ensures Flat(ps[..j]) == Flat(ps[..i]) + Flat(ps[i..j])
  {
    assert ps[..j] == ps[..i] + ps[i..j];
    FlatConcat(ps[..i], ps[i..j]);
  }

  lemma SendingAckKeeps(c: Config, s: Sys, quiet: bool)
    requires ConfigOk(c) && SysOk(c, s)
    ensures SysOk(c, Step(c, s, SendingAck(quiet)))
  {
    hide RcvOk, Readable, SendAck, NextAck, Line, Flat, SndOk, BufOk, Truthful, After;
    var s' := Step(c, s, SendingAck(quiet));
    SendAckOk(s.rcv, quiet, c.acks);
    AckedIsStream(c, s, s'.rcv.buf.ack);
    StillTruthful(c, s, s');
    NewAckTruthful(c, s', SendAck(s.rcv, quiet, c.acks).1);
  }

  /** What becomes readable up to position `a` continues the stream. */
  lemma AckedIsStream(c: Config, s: Sys, a: int)
    requires ConfigOk(c) && SysOk(c, s) && s.rcv.buf.ack <= a <= NextAck(s.rcv)
    ensures c.isn <= a <= c.isn + |s.stream|
    ensures s.delivered + (Readable(s.rcv.buf) + Line(s.rcv.buf.held, s.rcv.buf.ack, a)) == Flat(s.stream[..a - c.isn])
  {
    hide Readable, NextAck, Line, Flat, SndOk, Truthful;
    var b := s.rcv.buf.ack;
    AckBounds(c, s);
    NextAckIsFirstGap(s.rcv);
    LineIsStream(s.rcv.buf.held, s.stream, c.isn, b, a);
    FlatGrows(s.stream, b - c.isn, a - c.isn);
    Regroup(s.delivered, Readable(s.rcv.buf), Line(s.rcv.buf.held, b, a));
  }

  lemma NewAckTruthful(c: Config, s: Sys, out: Option<(int, int)>)
    requires out.Some? ==> out.value.0 <= NextAck(s.rcv) && out.value.1 <= c.window
    ensures out.Some? ==> Truthful(c, s, AckPkt(s.rcv.ackSeqNo, out.value.0, out.value.1))
  {
  }

  lemma ReadingDefined(c: Config, s: Sys, n: int)
    requires ConfigOk(c) && SysOk(c, s)
    ensures Defined(s, Reading(n))
  {
  }

  lemma ArrivalStep(c: Config, s: Sys, x: int, payload: Payload)
    requires ConfigOk(c)
    ensures var (rcv, lost) := Arrive(s.rcv, x, payload);
      Step(c, s, DataArrives(x, payload)) ==
      s.(rcv := rcv, net := if lost.Some? then s.net + {NakPkt([lost.value])} else s.net)
  {
    hide Arrive;
  }

  lemma ReadingStep(c: Config, s: Sys, n: int)
    requires ConfigOk(c) && Defined(s, Reading(n))
    ensures var (rcv, bytes) := ReadBytes(s.rcv, n);
      Step(c, s, Reading(n)) == s.(rcv := rcv, delivered := s.delivered + bytes)
  {
    hide ReadBytes;
  }

  lemma ReadingKeeps(c: Config, s: Sys, n: int)
    requires ConfigOk(c) && SysOk(c, s)
    ensures SysOk(c, Step(c, s, Reading(n)))
  {
    ReadingDefined(c, s, n);
    ReadingStep(c, s, n);
    hide RcvOk, Readable, ReadBytes, NextAck, Flat, SndOk, BufOk, Truthful, Step, Defined, MinInt, MaxInt;
    var s' := Step(c, s, Reading(n));
    ReadBytesOk(s.rcv, n);
    Regroup(s.delivered, ReadBytes(s.rcv, n).1, Readable(s'.rcv.buf));
    StillTruthful(c, s, s');
    AckBounds(c, s);
  }

  lemma Regroup(a: seq<Byte>, b: seq<Byte>, c: seq<Byte>)
    ensures (a + b) + c == a + (b + c)
  {
  }

  lemma StepKeeps(c: Config, s: Sys, e: Event)
    requires ConfigOk(c) && SysOk(c, s) && Enabled(s, e)
    ensures SysOk(c, Step(c, s, e))
  {
    hide SysOk, Step, Enabled;
    match e
    case Submitting(data) => SubmittingKeeps(c, s, data);
    case TakingLost => TakingLostKeeps(c, s);
    case SendingLost => SendingLostKeeps(c, s);
    case SendingNew(congestion) => SendingNewKeeps(c, s, congestion);
    case TimingOut => TimingOutKeeps(c, s);
    case DataArrives(x, p) => DataArrivesKeeps(c, s, x, p);
    case LiteAckArrives(a) => LiteAckArrivesKeeps(c, s, a);
    case AckArrives(n, a, w, confirm) => AckArrivesKeeps(c, s, n, a, w, confirm);
    case NakArrives(report) => NakArrivesKeeps(c, s, report);
    case Ack2Arrives(n, late) => Ack2ArrivesKeeps(c, s, n, late);
    case SendingLiteAck => SendingLiteAckKeeps(c, s);
    case SendingAck(quiet) => SendingAckKeeps(c, s, quiet);
    case Reading(n) => ReadingKeeps(c, s, n);
  }

  // ---------------------------------------------------------------- whole runs

  ghost predicate Next(c: Config, s: Sys, e: Event, s': Sys)
    requires ConfigOk(c)
  {
    Enabled(s, e) && Defined(s, e) && s' == Step(c, s, e)
  }

  /** The states `ss` a connection goes through when the events `es` happen in this order. */
  ghost predicate IsRun(c: Config, ss: seq<Sys>, es: seq<Event>)
    requires ConfigOk(c)
  {
    && |ss| == |es| + 1 && ss[0] == Start(c)
    && forall i :: 0 <= i < |es| ==> Next(c, ss[i], es[i], ss[i + 1])
  }

  /** One more event at the end of a run. */
  lemma RunStep(c: Config, ss: seq<Sys>, es: seq<Event>, e: Event)
    requires ConfigOk(c) && IsRun(c, ss, es) && Enabled(ss[|es|], e) && Defined(ss[|es|], e)
    ensures IsRun(c, ss + [Step(c, ss[|es|], e)], es + [e])
  {
    hide Step, Enabled, Defined;
    var ss', es' := ss + [Step(c, ss[|es|], e)], es + [e];
    forall i | 0 <= i < |es'| ensures Next(c, ss'[i], es'[i], ss'[i + 1]) {
      if i < |es| {
        assert Next(c, ss[i], es[i], ss[i + 1]);
      }
    }
  }

  /** In a consistent state every event that can happen is handled inside the buffers: in
      particular, a lost position that is looked up late is still held or already released. */
  lemma AlwaysDefined(c: Config, s: Sys, e: Event)
    requires ConfigOk(c) && SysOk(c, s) && Enabled(s, e)
    ensures Defined(s, e)
  {
    if e.AckArrives? {
      assert Truthful(c, s, AckPkt(e.n, e.a, e.w));
      NextAckIsFirstGap(s.rcv);
    }
  }

  lemma {:induction false} RunKeeps(c: Config, ss: seq<Sys>, es: seq<Event>, n: int)
    requires ConfigOk(c) && IsRun(c, ss, es) && 0 <= n < |ss|
    ensures SysOk(c, ss[n])
  {
    hide SysOk, Step, Enabled, Defined;
    if n == 0 {
      StartOk(c);
    } else {
      RunKeeps(c, ss, es, n - 1);
      assert Next(c, ss[n - 1], es[n - 1], ss[n]);
      StepKeeps(c, ss[n - 1], es[n - 1]);
    }
  }

  lemma RunPrefix(c: Config, ss: seq<Sys>, es: seq<Event>, n: int)
    requires ConfigOk(c) && IsRun(c, ss, es) && 0 <= n <= |es|
    ensures IsRun(c, ss[..n + 1], es[..n])
  {
    hide Next;
    forall i | 0 <= i < n
      ensures Next(c, ss[..n + 1][i], es[..n][i], ss[..n + 1][i + 1])
    {
      assert Next(c, ss[i], es[i], ss[i + 1]);
    }
  }

  /** The bytes the application has handed over in the course of the events. */
  function Submitted(es: seq<Event>): seq<Byte> {
    if |es| == 0 then []
    else
      var last := es[|es| - 1];
      Submitted(es[..|es| - 1]) + if last.Submitting? then last.data else []
  }

  lemma {:induction false} StreamIsSubmitted(c: Config, ss: seq<Sys>, es: seq<Event>)
    requires ConfigOk(c) && IsRun(c, ss, es)
    ensures Flat(ss[|es|].stream) == Submitted(es)
    decreases |es|
  {
    hide Flat, Chunks;
    if |es| == 0 {
      NoBytes();
    } else {
      var n := |es| - 1;
      var last := es[n];
      RunPrefix(c, ss, es, n);
      StreamIsSubmitted(c, ss[..n + 1], es[..n]);
      assert Next(c, ss[n], last, ss[n + 1]);
      if last.Submitting? {
        FlatConcat(ss[n].stream, Chunks(last.data, c.mss));
        FlatChunks(last.data, c.mss);
      } else {
        StreamUntouched(c, ss[n], last);
      }
    }
  }

  lemma StreamUntouched(c: Config, s: Sys, e: Event)
    requires ConfigOk(c) && Defined(s, e) && !e.Submitting?
    ensures Step(c, s, e).stream == s.stream
  {
  }

  /** End-to-end safety: at every point of every run the bytes read so far are a prefix of the
      bytes handed over, whatever the channel lost, repeated or reordered. */
  lemma StreamSafety(c: Config, ss: seq<Sys>, es: seq<Event>, n: int)
    requires ConfigOk(c) && IsRun(c, ss, es) && 0 <= n <= |es|
    ensures ss[n].delivered <= Submitted(es[..n])
  {
    var s := ss[n];
    RunKeeps(c, ss, es, n);
    RunPrefix(c, ss, es, n);
    StreamIsSubmitted(c, ss[..n + 1], es[..n]);
    AckBounds(c, s);
    FlatPrefix(s.stream, s.rcv.buf.ack - c.isn);
  }

  /** No data is ever given up: a packet the receiver has neither consumed nor holds is still
      held by the sender, under its own position. */
  lemma NothingGivenUp(c: Config, ss: seq<Sys>, es: seq<Event>, n: int, x: int)
    requires ConfigOk(c) && IsRun(c, ss, es) && 0 <= n <= |es|
    requires c.isn <= x < c.isn + |ss[n].stream|
    requires x >= ss[n].rcv.buf.start && x !in ss[n].rcv.buf.held
    ensures var s := ss[n];
            0 <= x - s.snd.dataAck < |s.snd.blocks| && s.snd.blocks[x - s.snd.dataAck] == s.stream[x - c.isn]
  {
    var s := ss[n];
    RunKeeps(c, ss, es, n);
    NextAckIsFirstGap(s.rcv);
    assert forall y :: s.rcv.buf.start <= y < NextAck(s.rcv) ==> y in s.rcv.buf.held;
  }

  /** Conforming peers never break the connection over an impossible acknowledgement or report,
      everything in flight or on the loss list spans less than one window, so that the list
      of twice that size is never outgrown, and the receiver's losses fit its ring. */
  lemma ListsNeverOutgrown(c: Config, ss: seq<Sys>, es: seq<Event>, n: int)
    requires ConfigOk(c) && IsRun(c, ss, es) && 0 <= n <= |es|
    ensures var s := ss[n];
            && !s.snd.broken
            && (forall x :: x in s.snd.loss ==> s.snd.dataAck <= x <= s.snd.curr < s.snd.dataAck + c.window)
            && s.snd.dataAck <= s.snd.ack <= s.snd.curr + 1
            && (forall x, y :: x in s.rcv.loss && y in s.rcv.loss ==> y - x < c.bufSize - 1)
  {
    var s := ss[n];
    RunKeeps(c, ss, es, n);
    RcvBounds(s.rcv);
  }

  // ---------------------------------------------------------------- losses over whole runs

  /** In one step the edge of the window does not move back, and no number below it becomes lost. */
  lemma SettledStep(c: Config, s: Sys, e: Event)
    requires ConfigOk(c) && SysOk(c, s) && Enabled(s, e) && Defined(s, e)
    ensures s.snd.ack <= Step(c, s, e).snd.ack
    ensures forall x :: x in Step(c, s, e).snd.loss && x < s.snd.ack ==> x in s.snd.loss
  {
    hide Chunks, Min, NextAck, RcvOk, Accepts, Arrive, SendAck, Read, NakLoss, Flat, Readable, Truthful;
    match e
    case NakArrives(report) => NakExact(s.snd, report);
    case TakingLost => TakeLostOk(s.snd, c.window);
    case _ =>
  }

  /** A report that arrives puts exactly its unacknowledged numbers on the loss list. */
  lemma NakHeard(c: Config, s: Sys, report: seq<Range>)
    requires ConfigOk(c) && SysOk(c, s) && Enabled(s, NakArrives(report))
    ensures var t := Step(c, s, NakArrives(report));
      && t == s.(snd := s.snd.(loss := t.snd.loss))
      && forall x :: x in t.snd.loss <==>
           x in s.snd.loss || (x >= s.snd.ack && exists i :: 0 <= i < |report| && report[i].lo <= x <= report[i].hi)
  {
    assert Truthful(c, s, NakPkt(report));
    NakExact(s.snd, report);
    hide SndOk, RcvOk, SenderHolds, ReceiverHolds, NextAck, Readable, Flat, NakLoss, Trusted, Bad;
    NakLossExact(s.snd.loss, s.snd.ack, s.snd.curr, report);
  }

  /** Whatever has been acknowledged, by a lite or a full acknowledgement, no later report or
      timeout puts on the loss list again. */
  lemma {:induction false} NotLostAgain(c: Config, ss: seq<Sys>, es: seq<Event>, i: nat, j: nat)
    requires ConfigOk(c) && IsRun(c, ss, es) && i <= j <= |es|
    ensures ss[i].snd.ack <= ss[j].snd.ack
    ensures forall x :: x in ss[j].snd.loss && x < ss[i].snd.ack ==> x in ss[i].snd.loss
    decreases j
  {
    hide SysOk, Step, Enabled, Defined;
    if i < j {
      NotLostAgain(c, ss, es, i, j - 1);
      RunKeeps(c, ss, es, j - 1);
      assert Next(c, ss[j - 1], es[j - 1], ss[j]);
      SettledStep(c, ss[j - 1], es[j - 1]);
    }
  }

  /** In particular after a lite acknowledgement, which also takes effect at once. */
  lemma LiteAckSettles(c: Config, ss: seq<Sys>, es: seq<Event>, i: nat, j: nat)
    requires ConfigOk(c) && IsRun(c, ss, es) && i < j <= |es| && es[i].LiteAckArrives?
    ensures ss[j].snd.ack >= es[i].a
    ensures forall x :: x in ss[j].snd.loss && x < es[i].a ==> x in ss[i].snd.loss
  {
    hide SysOk, Step, SndOk;
    RunKeeps(c, ss, es, i);
    assert Next(c, ss[i], es[i], ss[i + 1]);
    LiteAckMoves(c, ss[i], es[i].a);
    NotLostAgain(c, ss, es, i + 1, j);
  }

  lemma LiteAckMoves(c: Config, s: Sys, a: int)
    requires ConfigOk(c) && SysOk(c, s) && Enabled(s, LiteAckArrives(a))
    ensures var t := Step(c, s, LiteAckArrives(a));
      t.snd.ack >= a && t.snd.ack + t.snd.window == s.snd.ack + s.snd.window && t.snd.loss == s.snd.loss
  {
    assert Truthful(c, s, LiteAckPkt(a));
    NextAckIsFirstGap(s.rcv);
    LiteAckOk(s.snd, c.window, a);
    hide LiteAck, SndOk, RcvOk, NextAck, Truthful;
  }

  /** Some report under way, or lost, names position `x`. */
  ghost predicate Reported(net: set<Packet>, x: int) {
    exists report :: NakPkt(report) in net && Covers(report, x)
  }

  lemma ReportStep(c: Config, s: Sys, e: Event)
    requires ConfigOk(c) && SysOk(c, s) && Enabled(s, e) && Defined(s, e)
    requires forall x :: x in s.rcv.loss ==> Reported(s.net, x)
    ensures forall x :: x in Step(c, s, e).rcv.loss ==> Reported(Step(c, s, e).net, x)
  {
    var t := Step(c, s, e);
    NetGrows(c, s, e);
    forall x | x in t.rcv.loss ensures Reported(t.net, x) {
      if x in s.rcv.loss {
        var report :| NakPkt(report) in s.net && Covers(report, x);
        assert NakPkt(report) in t.net;
      } else {
        NewlyLost(c, s, e, x);
      }
    }
  }

  lemma NetGrows(c: Config, s: Sys, e: Event)
    requires ConfigOk(c) && Defined(s, e)
    ensures s.net <= Step(c, s, e).net
  {
    hide Chunks, Min, NextAck, Accepts, Arrive, SendAck, Read, NakLoss;
  }

  lemma NewlyLost(c: Config, s: Sys, e: Event, x: int)
    requires ConfigOk(c) && SysOk(c, s) && Enabled(s, e) && Defined(s, e)
    requires x in Step(c, s, e).rcv.loss && x !in s.rcv.loss
    ensures Reported(Step(c, s, e).net, x)
  {
    hide Readable, Flat, Truthful, NextAck;
    match e
    case DataArrives(y, p) =>
      ReportExact(s.rcv, y, p);
      ArrivalStep(c, s, y, p);
      hide Arrive, RcvOk, SysOk, Step;
      var report := [Arrive(s.rcv, y, p).1.value];
      assert report[0].lo <= x <= report[0].hi;
    case SendingAck(quiet) =>
      SendAckOk(s.rcv, quiet, c.acks);
    case Reading(n) =>
      ReadBytesOk(s.rcv, n);
    case _ =>
  }

  /** Every position the receiver misses it has reported, at every point of every run. */
  lemma {:induction false} EveryLossReported(c: Config, ss: seq<Sys>, es: seq<Event>, n: nat)
    requires ConfigOk(c) && IsRun(c, ss, es) && n <= |es|
    ensures forall x :: x in ss[n].rcv.loss ==> Reported(ss[n].net, x)
    decreases n
  {
    hide SysOk, Step, Enabled, Defined, Reported;
    if n > 0 {
      EveryLossReported(c, ss, es, n - 1);
      RunKeeps(c, ss, es, n - 1);
      assert Next(c, ss[n - 1], es[n - 1], ss[n]);
      ReportStep(c, ss[n - 1], es[n - 1]);
    }
  }
}
