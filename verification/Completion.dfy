/** When a connection can still deliver everything after all packets under way have been lost:
    which states are dead ends, and that no other is. */
module Completion {
  import opened SeqNo
  import opened Bytes
  import opened LossNodes
  import opened RcvBuffer
  import opened AckWindow
  import opened SenderModel
  import opened ReceiverModel
  import opened Transport

  /** The sender knows that everything before `a` has arrived, and if it knows no more, its
      window is open. */
  predicate Knows(s: Snd, a: int) {
    a <= s.ack && (a == s.ack ==> s.window >= 2)
  }

  /** What the receiver takes for confirmed, the sender knows. */
  ghost predicate Confirmed(s: Sys) {
    && Knows(s.snd, s.rcv.lastAckAck)
    && (forall i :: 0 <= i < |s.rcv.acks| ==> s.rcv.acks[i].seqno <= s.rcv.ackSeqNo)
    && (forall n :: Ack2Pkt(n) in s.net ==> n <= s.rcv.ackSeqNo)
    && (forall n, i :: Ack2Pkt(n) in s.net && 0 <= i < |s.rcv.acks| && s.rcv.acks[i].seqno == n ==>
          Knows(s.snd, s.rcv.acks[i].ack))
    && (forall n, a, w :: AckPkt(n, a, w) in s.net ==> w >= 2 && n <= s.rcv.ackSeqNo)
    && (forall n, a, w, i :: AckPkt(n, a, w) in s.net && 0 <= i < |s.rcv.acks| && s.rcv.acks[i].seqno == n ==>
          s.rcv.acks[i].ack == a)
  }

  lemma StartConfirmed(c: Config)
    requires ConfigOk(c)
    ensures Confirmed(Start(c))
  {
  }

  lemma StoreEntries(h: seq<AckRec>, cap: int, r: AckRec)
    ensures forall i :: 0 <= i < |Store(h, cap, r)| ==> Store(h, cap, r)[i] in h || Store(h, cap, r)[i] == r
  {
  }

  lemma SendingAckConfirms(c: Config, s: Sys, quiet: bool)
    requires ConfigOk(c) && SysOk(c, s) && Confirmed(s)
    ensures Confirmed(Step(c, s, SendingAck(quiet)))
  {
    hide SysOk, NextAck, Store, Acknowledge, AvailSize;
    var s' := Step(c, s, SendingAck(quiet));
    StoreEntries(s.rcv.acks, c.acks, AckRec(s.rcv.ackSeqNo + 1, NextAck(s.rcv)));
  }

  lemma Ack2ArrivesConfirms(c: Config, s: Sys, n: int, late: bool)
    requires ConfigOk(c) && SysOk(c, s) && Confirmed(s) && Ack2Pkt(n) in s.net
    ensures Confirmed(Step(c, s, Ack2Arrives(n, late)))
  {
    hide SysOk, TakeRecord, Knows;
    TakeRecordSpec(s.rcv.acks, n);
  }

  lemma ConfirmedStays(s: Sys, s': Sys)
    requires Confirmed(s) && (forall a :: Knows(s.snd, a) ==> Knows(s'.snd, a))
    requires s'.rcv.acks == s.rcv.acks && s'.rcv.lastAckAck == s.rcv.lastAckAck && s'.rcv.ackSeqNo == s.rcv.ackSeqNo
    requires forall n :: Ack2Pkt(n) in s'.net ==> Ack2Pkt(n) in s.net
    requires forall n, a, w :: AckPkt(n, a, w) in s'.net ==> AckPkt(n, a, w) in s.net
    ensures Confirmed(s')
  {
    hide Knows;
  }

  /** The sender answers: now it knows what that acknowledgement said. */
  lemma ConfirmedMore(s: Sys, n: int, a: int, w: int)
    requires Confirmed(s) && AckPkt(n, a, w) in s.net && Knows(s.snd, a)
    ensures Confirmed(s.(net := s.net + {Ack2Pkt(n)}))
  {
    hide Knows;
  }

  lemma AckArrivesConfirms(c: Config, s: Sys, n: int, a: int, w: int, confirm: bool)
    requires ConfigOk(c) && SysOk(c, s) && Confirmed(s) && AckPkt(n, a, w) in s.net
    ensures Defined(s, AckArrives(n, a, w, confirm)) && Confirmed(Step(c, s, AckArrives(n, a, w, confirm)))
  {
    AlwaysDefined(c, s, AckArrives(n, a, w, confirm));
    assert a <= s.snd.curr + 1 by {
      assert Truthful(c, s, AckPkt(n, a, w));
      AckBounds(c, s);
    }
    hide SysOk;
    assert w >= 2;
    hide Confirmed;
    var quiet := s.(snd := FullAck(s.snd, a, w));
    ConfirmedStays(s, quiet);
    if confirm {
      ConfirmedMore(quiet, n, a, w);
    }
  }

  lemma OtherConfirms(c: Config, s: Sys, e: Event)
    requires ConfigOk(c) && SysOk(c, s) && Confirmed(s) && Enabled(s, e)
    requires !e.SendingAck? && !e.Ack2Arrives? && !e.AckArrives?
    ensures Defined(s, e) && Confirmed(Step(c, s, e))
  {
    AlwaysDefined(c, s, e);
    hide SysOk, Arrive, NakLoss, Read, NextAck, Min, Confirmed;
    if e.DataArrives? {
      ArriveAcks(s.rcv, e.x, e.payload);
    }
    var s' := Step(c, s, e);
    ConfirmedStays(s, s');
  }

  lemma ArriveAcks(r: Rcv, x: int, p: Payload)
    ensures var r' := Arrive(r, x, p).0; r'.acks == r.acks && r'.lastAckAck == r.lastAckAck && r'.ackSeqNo == r.ackSeqNo
  {
  }

  // ---------------------------------------------------------------- the confirmed position

  /** The farthest the stream can get before another full acknowledgement reaches the sender. */
  function Top(s: Snd): int {
    MaxInt(s.curr + 1, s.ack + s.window)
  }

  function MaxLag(c: Config): int {
    c.window + MODULUS - SEQ_NO_TH
  }

  /** The confirmed position lags behind, but by less than one circle of numbers: the receiver
      stops announcing before that. */
  ghost predicate LagBounded(c: Config, s: Sys) {
    && Top(s.snd) - s.rcv.lastAckAck <= MaxLag(c)
    && (forall n, a, w :: AckPkt(n, a, w) in s.net ==> a + w - s.rcv.lastAckAck <= MaxLag(c))
  }

  lemma StartLag(c: Config)
    requires ConfigOk(c)
    ensures LagBounded(c, Start(c))
  {
  }

  lemma LagStays(c: Config, s: Sys, s': Sys)
    requires LagBounded(c, s) && s.rcv.lastAckAck <= s'.rcv.lastAckAck && Top(s'.snd) <= Top(s.snd)
    requires forall n, a, w :: AckPkt(n, a, w) in s'.net ==> AckPkt(n, a, w) in s.net
    ensures LagBounded(c, s')
  {
  }

  /** Only close to the confirmed position does the receiver announce. */
  lemma AnnouncesClose(c: Config, s: Sys)
    requires ConfigOk(c) && SysOk(c, s) && LagBounded(c, s)
    ensures 0 <= NextAck(s.rcv) - s.rcv.lastAckAck < MODULUS
    ensures SameNum(NextAck(s.rcv), s.rcv.lastAckAck) <==> NextAck(s.rcv) == s.rcv.lastAckAck
    ensures After(NextAck(s.rcv), s.rcv.lastAckAck) ==> NextAck(s.rcv) - s.rcv.lastAckAck <= MODULUS - SEQ_NO_TH
  {
    NextAckIsFirstGap(s.rcv);
    var a, b := NextAck(s.rcv), s.rcv.lastAckAck;
    hide SysOk, NextAck, RcvOk;
    if a > b {
      SeqCmpExactly(a, b);
      WrapDiff(b, a);
    }
  }

  lemma SendingAckLag(c: Config, s: Sys, quiet: bool)
    requires ConfigOk(c) && SysOk(c, s) && LagBounded(c, s)
    ensures LagBounded(c, Step(c, s, SendingAck(quiet)))
  {
    AnnouncesClose(c, s);
    SendAckOk(s.rcv, quiet, c.acks);
    hide SysOk, SendAck, NextAck, SameNum, After, RcvOk, AvailSize, Readable, Line, MaxInt;
    assert s.rcv.buf.size <= c.window by {
      BufferSize(c, s);
    }
  }

  lemma BufferSize(c: Config, s: Sys)
    requires SysOk(c, s)
    ensures s.rcv.buf.size == c.bufSize && RcvOk(s.rcv)
  {
  }

  lemma OtherLag(c: Config, s: Sys, e: Event)
    requires ConfigOk(c) && SysOk(c, s) && LagBounded(c, s) && Enabled(s, e) && !e.SendingAck?
    ensures Defined(s, e) && LagBounded(c, Step(c, s, e))
  {
    AlwaysDefined(c, s, e);
    BufferSize(c, s);
    if e.AckArrives? {
      AckInRange(c, s, e.n, e.a, e.w);
    } else if e.Ack2Arrives? {
      OnAck2Ok(s.rcv, e.n, e.late);
    } else if e.DataArrives? {
      ArriveAcks(s.rcv, e.x, e.payload);
    } else if e.LiteAckArrives? {
      LiteAckInRange(c, s, e.a);
    }
    hide SysOk, Arrive, NakLoss, Read, NextAck, Min, OnAck2, RcvOk, SendAck, SameNum, After;
    var s' := Step(c, s, e);
    if !e.AckArrives? {
      LagStays(c, s, s');
    }
  }

  lemma LiteAckInRange(c: Config, s: Sys, a: int)
    requires SysOk(c, s) && LiteAckPkt(a) in s.net
    ensures a <= s.snd.curr + 1
  {
    assert Truthful(c, s, LiteAckPkt(a));
    AckBounds(c, s);
  }

  // ---------------------------------------------------------------- getting somewhere

  ghost predicate Live(c: Config, s: Sys) {
    SysOk(c, s) && Confirmed(s) && LagBounded(c, s)
  }

  lemma StepLives(c: Config, s: Sys, e: Event)
    requires ConfigOk(c) && Live(c, s) && Enabled(s, e)
    ensures Defined(s, e) && Live(c, Step(c, s, e))
  {
    hide SysOk, Confirmed, LagBounded, Step;
    AlwaysDefined(c, s, e);
    StepKeeps(c, s, e);
    match e
    case SendingAck(quiet) =>
      SendingAckConfirms(c, s, quiet);
      SendingAckLag(c, s, quiet);
    case Ack2Arrives(n, late) =>
      Ack2ArrivesConfirms(c, s, n, late);
      OtherLag(c, s, e);
    case AckArrives(n, a, w, confirm) =>
      AckArrivesConfirms(c, s, n, a, w, confirm);
      OtherLag(c, s, e);
    case _ =>
      OtherConfirms(c, s, e);
      OtherLag(c, s, e);
  }

  /** What is under way may all be lost. */
  lemma AllLost(c: Config, s: Sys)
    requires Live(c, s)
    ensures Live(c, s.(net := {}))
  {
    hide NextAck, RcvOk, SndOk, Readable, Flat, Truthful, Knows, Top;
  }

  /** From `s` the events `es`, no new data among them, lead to `t`. */
  ghost predicate Follows(c: Config, s: Sys, es: seq<Event>, t: Sys)
    requires ConfigOk(c)
    decreases |es|
  {
    if es == [] then s == t
    else Enabled(s, es[0]) && Defined(s, es[0]) && !es[0].Submitting? && Follows(c, Step(c, s, es[0]), es[1..], t)
  }

  /** No new packet overtakes a pending loss, as when nothing comes between packData's look at
      the loss list and its new packet, and acknowledgements are answered. */
  ghost predicate Proper(s: Sys, e: Event) {
    !e.Submitting? && (e.SendingNew? ==> s.snd.loss == {}) && (e.AckArrives? ==> e.confirm)
  }

  /** The same by proper events only. */
  ghost predicate Leads(c: Config, s: Sys, es: seq<Event>, t: Sys)
    requires ConfigOk(c)
    decreases |es|
  {
    if es == [] then s == t
    else Enabled(s, es[0]) && Defined(s, es[0]) && Proper(s, es[0]) && Leads(c, Step(c, s, es[0]), es[1..], t)
  }

  lemma {:induction false} LeadsFollows(c: Config, s: Sys, es: seq<Event>, t: Sys)
    requires ConfigOk(c) && Leads(c, s, es, t)
    ensures Follows(c, s, es, t)
    decreases |es|
  {
    hide Step, Enabled, Defined;
    if es != [] {
      LeadsFollows(c, Step(c, s, es[0]), es[1..], t);
    }
  }

  /** No answer to an acknowledgement gets through. */
  ghost predicate NoAnswers(es: seq<Event>) {
    forall i :: 0 <= i < |es| ==> !es[i].Ack2Arrives?
  }

  lemma {:induction false} LeadsOn(c: Config, s: Sys, es: seq<Event>, t: Sys, es': seq<Event>, t': Sys)
    requires ConfigOk(c) && Leads(c, s, es, t) && Leads(c, t, es', t')
    ensures Leads(c, s, es + es', t')
    decreases |es|
  {
    hide Step, Enabled, Defined, Proper;
    if es == [] {
      assert es + es' == es';
    } else {
      LeadsOn(c, Step(c, s, es[0]), es[1..], t, es', t');
      assert (es + es')[1..] == es[1..] + es';
    }
  }

  /** One more event at the end. */
  lemma LeadsStep(c: Config, s: Sys, es: seq<Event>, t: Sys, e: Event)
    requires ConfigOk(c) && Leads(c, s, es, t) && Live(c, t) && Enabled(t, e) && Proper(t, e)
    ensures Defined(t, e) && Leads(c, s, es + [e], Step(c, t, e)) && Live(c, Step(c, t, e))
    ensures Step(c, t, e).stream == t.stream
    ensures NoAnswers(es) && !e.Ack2Arrives? ==> NoAnswers(es + [e])
  {
    hide Live, Step, Enabled;
    StepLives(c, t, e);
    StreamUntouched(c, t, e);
    assert [e][1..] == [];
    assert Leads(c, Step(c, t, e), [], Step(c, t, e));
    LeadsOn(c, s, es, t, [e], Step(c, t, e));
  }

  /** The retransmission already taken off the loss list goes out. */
  lemma FlushPending(c: Config, s0: Sys, es: seq<Event>, s: Sys) returns (es': seq<Event>, t: Sys)
    requires ConfigOk(c) && Leads(c, s0, es, s) && Live(c, s)
    ensures Leads(c, s0, es', t) && Live(c, t)
    ensures t == s.(pending := None, net := t.net) && s.net <= t.net
    ensures NoAnswers(es) ==> NoAnswers(es')
  {
    if s.pending.None? {
      es', t := es, s;
    } else {
      LeadsStep(c, s0, es, s, SendingLost);
      es', t := es + [SendingLost], Step(c, s, SendingLost);
    }
  }

  /** Everything on the loss list goes out. */
  lemma {:induction false} Drain(c: Config, s0: Sys, es: seq<Event>, s: Sys) returns (es': seq<Event>, t: Sys)
    requires ConfigOk(c) && Leads(c, s0, es, s) && Live(c, s) && s.pending.None?
    ensures Leads(c, s0, es', t) && Live(c, t)
    ensures t == s.(snd := s.snd.(loss := {}), net := t.net) && s.net <= t.net
    ensures forall x :: x in s.snd.loss ==>
      0 <= x - s.snd.dataAck < |s.snd.blocks| && Data(x, s.snd.blocks[x - s.snd.dataAck]) in t.net
    ensures NoAnswers(es) ==> NoAnswers(es')
    decreases |s.snd.loss|
  {
    hide Live, Leads, NoAnswers;
    LossHeld(c, s);
    if s.snd.loss == {} {
      es', t := es, s;
    } else {
      var x := Min(s.snd.loss);
      LeadsStep(c, s0, es, s, TakingLost);
      var s1 := Step(c, s, TakingLost);
      LeadsStep(c, s0, es + [TakingLost], s1, SendingLost);
      var s2 := Step(c, s1, SendingLost);
      assert s2 == s.(snd := s.snd.(loss := s.snd.loss - {x}),
                      net := s.net + {Data(x, s.snd.blocks[x - s.snd.dataAck])});
      assert |s2.snd.loss| < |s.snd.loss|;
      es', t := Drain(c, s0, es + [TakingLost] + [SendingLost], s2);
      forall y | y in s.snd.loss ensures Data(y, s.snd.blocks[y - s.snd.dataAck]) in t.net {
        assert y == x || y in s2.snd.loss;
      }
    }
  }

  lemma LossHeld(c: Config, s: Sys)
    requires Live(c, s)
    ensures forall x :: x in s.snd.loss ==> 0 <= x - s.snd.dataAck < |s.snd.blocks|
  {
  }

  /** An unacknowledged packet that has been sent can be sent again. */
  lemma Fetch(c: Config, s0: Sys, es: seq<Event>, s: Sys, g: int) returns (es': seq<Event>, t: Sys, p: Payload)
    requires ConfigOk(c) && Leads(c, s0, es, s) && Live(c, s) && s.snd.ack <= g <= s.snd.curr
    ensures Leads(c, s0, es', t) && Live(c, t)
    ensures t.rcv == s.rcv && t.stream == s.stream && Data(g, p) in t.net && Top(t.snd) == Top(s.snd)
    ensures NoAnswers(es) ==> NoAnswers(es')
  {
    hide Live, Leads, Step, NoAnswers;
    var es1, s1 := FlushPending(c, s0, es, s);
    var es2, s2 := Drain(c, s0, es1, s1);
    LeadsStep(c, s0, es2, s2, TimingOut);
    var s3 := Step(c, s2, TimingOut);
    TimesOut(c, s2);
    assert g in s3.snd.loss;
    es', t := Drain(c, s0, es2 + [TimingOut], s3);
    p := s3.snd.blocks[g - s3.snd.dataAck];
  }

  lemma TimesOut(c: Config, s: Sys)
    requires ConfigOk(c) && Live(c, s) && s.snd.loss == {} && s.snd.ack <= s.snd.curr
    ensures Step(c, s, TimingOut) == s.(snd := s.snd.(loss := Span(s.snd.ack, s.snd.curr)))
  {
  }

  /** A read of more than there is empties the readable part of the ring. */
  lemma {:induction false} ReadPastEnd(b: RcvBuf, rs: int)
    requires BufOk(b) && rs > |Readable(b)|
    ensures Read(b, rs).0.start == b.ack
    decreases b.ack - b.start
  {
    hide Readable;
    if b.start < b.ack {
      ReadableSplit(b);
      ReadPastEnd(DropFirst(b), rs - (|b.held[b.start]| - b.notch));
    }
  }

  lemma AcksAll(c: Config, s: Sys)
    requires ConfigOk(c) && Live(c, s)
    ensures var r' := SendAck(s.rcv, false, c.acks).0;
      && r'.buf.ack == NextAck(r') == NextAck(s.rcv) && r'.lastAckAck == s.rcv.lastAckAck
      && r'.buf.held == s.rcv.buf.held
  {
    AnnouncesClose(c, s);
    SendAckOk(s.rcv, false, c.acks);
    NextAckIsFirstGap(s.rcv);
    LastIsBehind(s.rcv);
    hide SysOk, Confirmed, LagBounded, RcvOk, NextAck, Store, AvailSize, Readable, Line, SameNum, After;
  }

  lemma LastIsBehind(r: Rcv)
    requires RcvOk(r)
    ensures r.lastAckAck <= r.buf.ack
  {
  }

  /** Everything up to the first gap is acknowledged and read. */
  ghost predicate AtRest(c: Config, s: Sys, g: int) {
    && s.rcv.buf.start == s.rcv.buf.ack == NextAck(s.rcv) == g
    && c.isn <= g <= c.isn + |s.stream| && s.delivered == Flat(s.stream[..g - c.isn])
  }

  /** The receiver acknowledges and the application reads all there is. */
  lemma Settle(c: Config, s0: Sys, es: seq<Event>, s: Sys) returns (es': seq<Event>, t: Sys)
    requires ConfigOk(c) && Leads(c, s0, es, s) && Live(c, s)
    ensures Leads(c, s0, es', t) && Live(c, t)
    ensures t.snd == s.snd && t.stream == s.stream && t.pending == s.pending && t.rcv.lastAckAck == s.rcv.lastAckAck
    ensures AtRest(c, t, NextAck(s.rcv)) && t.rcv.buf.held.Keys <= s.rcv.buf.held.Keys
    ensures NoAnswers(es) ==> NoAnswers(es')
  {
    hide Leads, NoAnswers, Step, Live, SysOk, RcvOk, BufOk, Readable, NextAck, Flat;
    LeadsStep(c, s0, es, s, SendingAck(false));
    var s1 := Step(c, s, SendingAck(false));
    Acknowledged(c, s);
    LiveParts(c, s1);
    var n := |Readable(s1.rcv.buf)| + 1;
    LeadsStep(c, s0, es + [SendingAck(false)], s1, Reading(n));
    es', t := es + [SendingAck(false)] + [Reading(n)], Step(c, s1, Reading(n));
    AllRead(c, s1, n);
    LiveParts(c, t);
    AckBounds(c, t);
    DeliveredAll(c, t);
  }

  lemma LiveParts(c: Config, s: Sys)
    requires Live(c, s)
    ensures SysOk(c, s) && RcvOk(s.rcv) && BufOk(s.rcv.buf) && s.rcv.buf.size == c.bufSize
  {
  }

  lemma DeliveredAll(c: Config, s: Sys)
    requires SysOk(c, s) && BufOk(s.rcv.buf) && Readable(s.rcv.buf) == []
    ensures 0 <= s.rcv.buf.ack - c.isn <= |s.stream| && s.delivered == Flat(s.stream[..s.rcv.buf.ack - c.isn])
  {
    AckBounds(c, s);
    assert s.delivered + [] == s.delivered;
  }

  lemma Acknowledged(c: Config, s: Sys)
    requires ConfigOk(c) && Live(c, s)
    ensures var t := Step(c, s, SendingAck(false));
      && t.snd == s.snd && t.stream == s.stream && t.pending == s.pending
      && t.rcv.buf.ack == NextAck(t.rcv) == NextAck(s.rcv) && t.rcv.lastAckAck == s.rcv.lastAckAck
      && t.rcv.buf.held == s.rcv.buf.held
  {
    AcksAll(c, s);
    hide RcvOk, NextAck, SendAck, Live;
  }

  lemma AllRead(c: Config, s: Sys, n: int)
    requires ConfigOk(c) && SysOk(c, s) && BufOk(s.rcv.buf) && n > |Readable(s.rcv.buf)|
    ensures Defined(s, Reading(n))
    ensures var t := Step(c, s, Reading(n));
      && t.snd == s.snd && t.stream == s.stream && t.pending == s.pending && t.rcv.lastAckAck == s.rcv.lastAckAck
      && t.rcv.buf.start == t.rcv.buf.ack == s.rcv.buf.ack && NextAck(t.rcv) == NextAck(s.rcv)
      && BufOk(t.rcv.buf) && Readable(t.rcv.buf) == [] && t.rcv.buf.held.Keys <= s.rcv.buf.held.Keys
  {
    ReadingDefined(c, s, n);
    ReadBytesOk(s.rcv, n);
    ReadPastEnd(s.rcv.buf, n);
    FewerHeld(s.rcv.buf, n);
    ReadNothing(Step(c, s, Reading(n)).rcv.buf);
    hide SysOk, RcvOk, NextAck, Readable, Read, BufOk;
  }

  lemma FewerHeld(b: RcvBuf, n: int)
    requires BufOk(b)
    ensures BufOk(Read(b, n).0) && Read(b, n).0.held.Keys <= b.held.Keys
  {
    ReadIsTake(b, n);
    hide Read, BufOk, Readable;
    forall x | x in Read(b, n).0.held.Keys ensures x in b.held.Keys {
      assert x in Read(b, n).0.held;
    }
  }

  lemma GapIsMissing(r: Rcv)
    ensures NextAck(r) > r.curr || NextAck(r) in r.loss
  {
  }

  /** The packet the receiver waits for arrives. */
  lemma GapCloses(r: Rcv, p: Payload)
    requires RcvOk(r) && r.buf.start == r.buf.ack == NextAck(r)
    ensures var g, r' := NextAck(r), Arrive(r, NextAck(r), p).0;
      && g < NextAck(r') < g + r.buf.size && r'.lastAckAck == r.lastAckAck
      && (forall y :: g <= y < NextAck(r') ==> y == g || y in r.buf.held)
      && r'.buf.held.Keys <= r.buf.held.Keys + {g}
  {
    hide Arrive, NextAck, Accepts, Readable, AvailSize;
    var g := NextAck(r);
    assert g < r.buf.start + r.buf.size - 1;
    GapIsMissing(r);
    AcceptsWhen(r, g);
    ArriveOk(r, g, p);
    ArriveAcks(r, g, p);
    ArriveStart(r, g, p);
    NextAckIsFirstGap(Arrive(r, g, p).0);
  }

  /** As long as the window lets it, the packet the receiver waits for can be brought in. */
  lemma OneMore(c: Config, s0: Sys, es: seq<Event>, s: Sys, g: int) returns (es': seq<Event>, t: Sys)
    requires ConfigOk(c) && Leads(c, s0, es, s) && Live(c, s)
    requires AtRest(c, s, g) && g < Top(s.snd) && g < c.isn + |s.stream|
    ensures Leads(c, s0, es', t) && Live(c, t)
    ensures t.stream == s.stream && Top(t.snd) == Top(s.snd) && t.rcv.lastAckAck == s.rcv.lastAckAck
    ensures g < NextAck(t.rcv) < g + c.bufSize && t.rcv.buf.held.Keys <= s.rcv.buf.held.Keys + {g}
    ensures forall y :: g <= y < NextAck(t.rcv) ==> y == g || y in s.rcv.buf.held
    ensures NoAnswers(es) ==> NoAnswers(es')
  {
    hide Leads, NoAnswers, Step, Live;
    SenderBehind(c, s);
    var p;
    var es1, s1 := es, s;
    if g <= s.snd.curr {
      es1, s1, p := Fetch(c, s0, es, s, g);
    } else {
      es1, s1 := FlushPending(c, s0, es, s);
      es1, s1 := Drain(c, s0, es1, s1);
      var e := SendingNew(s1.snd.window);
      LeadsStep(c, s0, es1, s1, e);
      p := NewGoesOut(c, s1, g);
      es1, s1 := es1 + [e], Step(c, s1, e);
    }
    LeadsStep(c, s0, es1, s1, DataArrives(g, p));
    LiveParts(c, s1);
    es', t := es1 + [DataArrives(g, p)], Step(c, s1, DataArrives(g, p));
    ArrivalMoves(c, s1, g, p);
  }

  lemma ArrivalMoves(c: Config, s: Sys, g: int, p: Payload)
    requires ConfigOk(c) && RcvOk(s.rcv) && s.rcv.buf.start == s.rcv.buf.ack == NextAck(s.rcv) == g
    ensures var t := Step(c, s, DataArrives(g, p));
      && t.snd == s.snd && t.stream == s.stream && t.rcv == Arrive(s.rcv, g, p).0
      && g < NextAck(t.rcv) < g + s.rcv.buf.size && t.rcv.lastAckAck == s.rcv.lastAckAck
      && (forall y :: g <= y < NextAck(t.rcv) ==> y == g || y in s.rcv.buf.held)
      && t.rcv.buf.held.Keys <= s.rcv.buf.held.Keys + {g}
  {
    hide Arrive, NextAck, RcvOk;
    GapCloses(s.rcv, p);
  }

  lemma SenderBehind(c: Config, s: Sys)
    requires Live(c, s)
    ensures s.snd.ack <= NextAck(s.rcv) <= s.snd.curr + 1
  {
    NextAckIsFirstGap(s.rcv);
  }

  lemma NewGoesOut(c: Config, s: Sys, g: int) returns (p: Payload)
    requires ConfigOk(c) && Live(c, s) && s.pending.None?
    requires s.snd.curr + 1 == g < Top(s.snd) && g < c.isn + |s.stream|
    ensures var t := Step(c, s, SendingNew(s.snd.window));
      Data(g, p) in t.net && t.rcv == s.rcv && t.stream == s.stream && Top(t.snd) == Top(s.snd)
  {
    p := s.snd.blocks[s.snd.sent];
  }

  /** Any position up to the top that the receiver does not hold can be made the first gap. */
  lemma {:induction false} Reach(c: Config, s0: Sys, es: seq<Event>, s: Sys, g: int) returns (es': seq<Event>, t: Sys)
    requires ConfigOk(c) && Leads(c, s0, es, s) && Live(c, s)
    requires NextAck(s.rcv) <= g <= Top(s.snd) && g <= c.isn + |s.stream| && g !in s.rcv.buf.held
    ensures Leads(c, s0, es', t) && Live(c, t)
    ensures AtRest(c, t, g) && t.stream == s.stream && t.rcv.lastAckAck == s.rcv.lastAckAck
    ensures Top(t.snd) == Top(s.snd) && t.rcv.buf.held.Keys <= s.rcv.buf.held.Keys + Span(NextAck(s.rcv), g - 1)
    ensures NoAnswers(es) ==> NoAnswers(es')
    decreases g - NextAck(s.rcv)
  {
    hide Leads, NoAnswers, Step, Live, NextAck;
    es', t := Settle(c, s0, es, s);
    var x := NextAck(s.rcv);
    assert g !in t.rcv.buf.held.Keys;
    if x < g {
      es', t := OneMore(c, s0, es', t, x);
      assert g !in t.rcv.buf.held.Keys;
      es', t := Reach(c, s0, es', t, g);
    }
  }

  /** The receiver announces where it is, the sender takes it in and answers, and the answer
      arrives. */
  lemma Announce(c: Config, s0: Sys, es: seq<Event>, s: Sys, g: int) returns (es': seq<Event>, t: Sys)
    requires ConfigOk(c) && Leads(c, s0, es, s) && Live(c, s)
    requires AtRest(c, s, g) && After(g, s.rcv.lastAckAck)
    ensures Leads(c, s0, es', t) && Live(c, t)
    ensures AtRest(c, t, g) && t.stream == s.stream && t.rcv.lastAckAck == g && Top(t.snd) > g
  {
    hide Leads, Step, Live, NextAck;
    LiveParts(c, s);
    SenderBehind(c, s);
    LeadsStep(c, s0, es, s, SendingAck(false));
    var s1 := Step(c, s, SendingAck(false));
    AckGoesOut(c, s);
    var n := s1.rcv.ackSeqNo;
    var e := AckArrives(n, g, MaxInt(AvailSize(s.rcv.buf), 2), true);
    LeadsStep(c, s0, es + [SendingAck(false)], s1, e);
    var s2 := Step(c, s1, e);
    AckTaken(c, s1, e);
    LeadsStep(c, s0, es + [SendingAck(false)] + [e], s2, Ack2Arrives(n, false));
    OldRecords(c, s);
    Ack2Taken(c, s.rcv, s2, n, g);
    es', t := es + [SendingAck(false)] + [e] + [Ack2Arrives(n, false)], Step(c, s2, Ack2Arrives(n, false));
    SameGap(s.rcv, t.rcv);
    KnownIsOpen(c, t);
  }

  lemma KnownIsOpen(c: Config, s: Sys)
    requires Live(c, s) && s.rcv.lastAckAck == NextAck(s.rcv)
    ensures Top(s.snd) > NextAck(s.rcv)
  {
    SenderBehind(c, s);
  }

  lemma AcksAgain(r: Rcv, cap: int)
    requires RcvOk(r) && r.buf.ack == NextAck(r) && After(NextAck(r), r.lastAckAck)
    ensures SendAck(r, false, cap) ==
      (r.(ackSeqNo := r.ackSeqNo + 1, acks := Store(r.acks, cap, AckRec(r.ackSeqNo + 1, r.buf.ack))),
       Some((r.buf.ack, MaxInt(AvailSize(r.buf), 2))))
  {
    hide RcvOk, NextAck, Store, AvailSize;
  }

  lemma AckGoesOut(c: Config, s: Sys)
    requires ConfigOk(c) && RcvOk(s.rcv) && s.rcv.buf.ack == NextAck(s.rcv) && After(NextAck(s.rcv), s.rcv.lastAckAck)
    ensures var t := Step(c, s, SendingAck(false));
      && t.rcv == s.rcv.(ackSeqNo := s.rcv.ackSeqNo + 1,
                         acks := Store(s.rcv.acks, c.acks, AckRec(s.rcv.ackSeqNo + 1, s.rcv.buf.ack)))
      && t.snd == s.snd && t.stream == s.stream && t.pending == s.pending && t.delivered == s.delivered
      && AckPkt(t.rcv.ackSeqNo, s.rcv.buf.ack, MaxInt(AvailSize(s.rcv.buf), 2)) in t.net
  {
    hide NextAck, Store, AvailSize, SendAck, RcvOk, After;
    AcksAgain(s.rcv, c.acks);
  }

  lemma AckTaken(c: Config, s: Sys, e: Event)
    requires ConfigOk(c) && e.AckArrives? && e.confirm && Defined(s, e)
    ensures var t := Step(c, s, e);
      t.rcv == s.rcv && t.stream == s.stream && t.delivered == s.delivered && Ack2Pkt(e.n) in t.net
  {
  }

  lemma OldRecords(c: Config, s: Sys)
    requires Live(c, s)
    ensures forall i :: 0 <= i < |s.rcv.acks| ==> s.rcv.acks[i].seqno <= s.rcv.ackSeqNo
  {
    hide SysOk, LagBounded;
  }

  lemma SameGap(r: Rcv, r': Rcv)
    requires r'.loss == r.loss && r'.curr == r.curr
    ensures NextAck(r') == NextAck(r)
  {
  }

  /** The latest record is found, whatever comes before it. */
  lemma LatestFound(h: seq<AckRec>, cap: int, n: int, g: int)
    requires cap >= 1 && forall i :: 0 <= i < |h| ==> h[i].seqno < n
    ensures TakeRecord(Store(h, cap, AckRec(n, g)), n) == ([], Some(g))
  {
    var h' := Store(h, cap, AckRec(n, g));
    assert h'[|h'| - 1] == AckRec(n, g) && forall j :: 0 <= j < |h'| - 1 ==> h'[j].seqno < n;
    TakeRecordSkips(h', n, |h'| - 1);
    assert h'[|h'|..] == [];
  }

  lemma Ack2Taken(c: Config, before: Rcv, s: Sys, n: int, g: int)
    requires ConfigOk(c) && (forall i :: 0 <= i < |before.acks| ==> before.acks[i].seqno < n)
    requires s.rcv == before.(ackSeqNo := n, acks := Store(before.acks, c.acks, AckRec(n, g)))
    requires After(g, before.lastAckAck)
    ensures var t := Step(c, s, Ack2Arrives(n, false));
      && t.rcv == before.(ackSeqNo := n, acks := [], lastAckAck := g)
      && t.snd == s.snd && t.stream == s.stream && t.delivered == s.delivered
  {
    hide TakeRecord, Store, After;
    LatestFound(before.acks, c.acks, n, g);
  }

  /** With the confirmed position close, everything comes through. */
  lemma {:induction false} Flow(c: Config, s0: Sys, es: seq<Event>, s: Sys) returns (es': seq<Event>, t: Sys)
    requires ConfigOk(c) && Leads(c, s0, es, s) && Live(c, s)
    requires NextAck(s.rcv) - s.rcv.lastAckAck < SEQ_NO_TH
    ensures Leads(c, s0, es', t) && t.stream == s.stream && t.delivered == Flat(s.stream)
    decreases c.isn + |s.stream| - NextAck(s.rcv)
  {
    hide Leads, Step, Live, NextAck, Top;
    es', t := Settle(c, s0, es, s);
    var g := NextAck(s.rcv);
    if g == c.isn + |s.stream| {
      assert t.stream[..|t.stream|] == t.stream;
    } else {
      LagClose(c, t);
      if g != t.rcv.lastAckAck {
        es', t := Announce(c, s0, es', t, g);
      } else {
        KnownIsOpen(c, t);
      }
      es', t := OneMore(c, s0, es', t, g);
      es', t := Flow(c, s0, es', t);
    }
  }

  lemma LagClose(c: Config, s: Sys)
    requires ConfigOk(c) && Live(c, s) && NextAck(s.rcv) - s.rcv.lastAckAck < SEQ_NO_TH
    ensures NextAck(s.rcv) != s.rcv.lastAckAck ==> After(NextAck(s.rcv), s.rcv.lastAckAck)
  {
    AnnouncesClose(c, s);
    if NextAck(s.rcv) != s.rcv.lastAckAck {
      SeqCmpExactly(NextAck(s.rcv), s.rcv.lastAckAck);
    }
  }

  /** The confirmed position is close, or the sender's window reaches to the end of the data, or
      it reaches to a position that the receiver can stop at and will announce. */
  ghost predicate GetsThrough(c: Config, s: Sys) {
    || NextAck(s.rcv) - s.rcv.lastAckAck < SEQ_NO_TH
    || c.isn + |s.stream| <= Top(s.snd)
    || exists g :: NextAck(s.rcv) <= g <= Top(s.snd) && g !in s.rcv.buf.held && After(g, s.rcv.lastAckAck)
  }

  /** In these states everything handed over can still be delivered. */
  lemma AllDelivered(c: Config, s: Sys) returns (es: seq<Event>, t: Sys)
    requires ConfigOk(c) && Live(c, s) && GetsThrough(c, s)
    ensures Leads(c, s, es, t) && t.delivered == Flat(s.stream)
  {
    hide Leads, Step, Live, NextAck, After, Top;
    assert Leads(c, s, [], s) by {
      NoEvents(c, s);
    }
    EndNotHeld(c, s);
    if NextAck(s.rcv) - s.rcv.lastAckAck < SEQ_NO_TH {
      es, t := Flow(c, s, [], s);
    } else if c.isn + |s.stream| <= Top(s.snd) {
      es, t := Reach(c, s, [], s, c.isn + |s.stream|);
      assert t.stream[..|t.stream|] == t.stream;
    } else {
      var g :| NextAck(s.rcv) <= g <= Top(s.snd) && g !in s.rcv.buf.held && After(g, s.rcv.lastAckAck);
      es, t := Reach(c, s, [], s, g);
      es, t := Announce(c, s, es, t, g);
      es, t := Flow(c, s, es, t);
    }
  }

  lemma NoEvents(c: Config, s: Sys)
    requires ConfigOk(c)
    ensures Leads(c, s, [], s) && NoAnswers([])
  {
  }

  lemma EndNotHeld(c: Config, s: Sys)
    requires Live(c, s)
    ensures c.isn + |s.stream| !in s.rcv.buf.held && NextAck(s.rcv) <= c.isn + |s.stream|
  {
    AckBounds(c, s);
  }

  lemma {:induction false} RunLives(c: Config, ss: seq<Sys>, es: seq<Event>, n: int)
    requires ConfigOk(c) && IsRun(c, ss, es) && 0 <= n < |ss|
    ensures Live(c, ss[n])
  {
    hide Live, Step, Enabled, Defined;
    if n == 0 {
      StartLives(c);
    } else {
      RunLives(c, ss, es, n - 1);
      assert Next(c, ss[n - 1], es[n - 1], ss[n]);
      StepLives(c, ss[n - 1], es[n - 1]);
    }
  }

  lemma StartLives(c: Config)
    requires ConfigOk(c)
    ensures Live(c, Start(c))
  {
    hide SysOk, Confirmed, LagBounded;
    StartOk(c);
    StartConfirmed(c);
    StartLag(c);
  }
}
