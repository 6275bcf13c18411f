/** The dead ends of a connection, exactly: the states from which, once everything under way has
    been lost, no further steps deliver the data handed over.  They need a receiver none of whose
    acknowledgements have been confirmed for a good 2^30 packets. */
module DeadEnd {
  import opened SeqNo
  import opened Bytes
  import opened LossNodes
  import opened RcvBuffer
  import opened SndBuffer
  import opened AckWindow
  import opened SenderModel
  import opened ReceiverModel
  import opened Transport
  import opened Completion

  // ---------------------------------------------------------------- nothing moves any more

  /** From the first gap `g0` to the top `top`, the receiver announces nowhere it can stop. */
  ghost predicate Hushed(g0: int, top: int, last: int, held: set<int>) {
    forall g :: g0 <= g <= top && g !in held ==> !After(g, last)
  }

  /** What a hushed connection keeps: nothing it sends opens the window or moves `last`. */
  ghost predicate Stuck(c: Config, s: Sys, g0: int, top: int, last: int, held: set<int>) {
    Live(c, s) && StuckBut(s, g0, top, last, held)
  }

  ghost predicate StuckBut(s: Sys, g0: int, top: int, last: int, held: set<int>) {
    && s.rcv.lastAckAck == last && Top(s.snd) <= top && g0 <= NextAck(s.rcv)
    && (forall x :: x in held && x >= s.rcv.buf.ack ==> x in s.rcv.buf.held)
    && (forall n :: Ack2Pkt(n) !in s.net) && (forall n, a, w :: AckPkt(n, a, w) !in s.net)
  }

  lemma StaysHushed(c: Config, s: Sys, g0: int, top: int, last: int, held: set<int>)
    requires ConfigOk(c) && Stuck(c, s, g0, top, last, held) && Hushed(g0, top, last, held)
    ensures !After(NextAck(s.rcv), last) && NextAck(s.rcv) <= top
  {
    SenderBehind(c, s);
    LiveParts(c, s);
    hide Live, NextAck, After;
    NextAckIsFirstGap(s.rcv);
  }

  lemma StuckAck(c: Config, s: Sys, quiet: bool, g0: int, top: int, last: int, held: set<int>)
    requires ConfigOk(c) && Stuck(c, s, g0, top, last, held) && !After(NextAck(s.rcv), last)
    ensures StuckBut(Step(c, s, SendingAck(quiet)), g0, top, last, held)
  {
    LiveParts(c, s);
    SendAckOk(s.rcv, quiet, c.acks);
    hide Live, NextAck, After, RcvOk, BufOk, SendAck, Readable, AvailSize, Line;
  }

  lemma StuckArrival(c: Config, s: Sys, x: int, p: Payload, g0: int, top: int, last: int, held: set<int>)
    requires ConfigOk(c) && Stuck(c, s, g0, top, last, held)
    ensures StuckBut(Step(c, s, DataArrives(x, p)), g0, top, last, held)
  {
    LiveParts(c, s);
    hide Live, SysOk, Top, NextAck, RcvOk, BufOk, Arrive, Readable, Accepts, Step;
    ArrivalStep(c, s, x, p);
    ArriveOk(s.rcv, x, p);
    ArriveAcks(s.rcv, x, p);
  }

  lemma StuckReading(c: Config, s: Sys, n: int, g0: int, top: int, last: int, held: set<int>)
    requires ConfigOk(c) && Stuck(c, s, g0, top, last, held) && Defined(s, Reading(n))
    ensures StuckBut(Step(c, s, Reading(n)), g0, top, last, held)
  {
    LiveParts(c, s);
    hide Live, NextAck, RcvOk, BufOk, Read, Readable, ReadBytes, SysOk, Top, Step, Defined;
    ReadingStep(c, s, n);
    ReadBytesOk(s.rcv, n);
  }

  lemma StuckSending(c: Config, s: Sys, e: Event, g0: int, top: int, last: int, held: set<int>)
    requires ConfigOk(c) && Stuck(c, s, g0, top, last, held) && Enabled(s, e) && Defined(s, e)
    requires !e.Submitting? && !e.SendingAck? && !e.DataArrives? && !e.Reading?
    ensures StuckBut(Step(c, s, e), g0, top, last, held)
  {
    hide Live, NextAck, NakLoss, Min, Arrive, Read, SendAck;
  }

  lemma StuckStep(c: Config, s: Sys, e: Event, g0: int, top: int, last: int, held: set<int>)
    requires ConfigOk(c) && Stuck(c, s, g0, top, last, held) && Hushed(g0, top, last, held)
    requires Enabled(s, e) && !e.Submitting?
    ensures Defined(s, e) && Stuck(c, Step(c, s, e), g0, top, last, held)
  {
    StepLives(c, s, e);
    StaysHushed(c, s, g0, top, last, held);
    hide Live, NextAck, After, Hushed, Step, StuckBut;
    match e
    case SendingAck(quiet) => StuckAck(c, s, quiet, g0, top, last, held);
    case DataArrives(x, p) => StuckArrival(c, s, x, p, g0, top, last, held);
    case Reading(n) => StuckReading(c, s, n, g0, top, last, held);
    case _ => StuckSending(c, s, e, g0, top, last, held);
  }

  lemma {:induction false} StuckForever(c: Config, s: Sys, es: seq<Event>, t: Sys,
                                        g0: int, top: int, last: int, held: set<int>)
    requires ConfigOk(c) && Stuck(c, s, g0, top, last, held) && Hushed(g0, top, last, held) && Follows(c, s, es, t)
    ensures Stuck(c, t, g0, top, last, held) && t.stream == s.stream
    decreases |es|
  {
    hide Stuck, Hushed, Step, Enabled, Defined;
    if es != [] {
      StuckStep(c, s, es[0], g0, top, last, held);
      StreamUntouched(c, s, es[0]);
      StuckForever(c, Step(c, s, es[0]), es[1..], t, g0, top, last, held);
    }
  }

  lemma {:induction false} LastCounts(ps: seq<Payload>)
    requires |ps| > 0 && |ps[|ps| - 1]| > 0
    ensures |Flat(ps)| > 0
  {
    FlatConcat(ps[..|ps| - 1], ps[|ps| - 1..]);
    assert ps == ps[..|ps| - 1] + ps[|ps| - 1..];
    assert ps[|ps| - 1..] == [ps[|ps| - 1]];
    assert Flat([ps[|ps| - 1]]) == ps[|ps| - 1] + Flat([]);
  }

  /** While the first gap lies before the end of the data, not everything has been delivered. */
  lemma NotAllYet(c: Config, s: Sys)
    requires ConfigOk(c) && Live(c, s) && Top(s.snd) < c.isn + |s.stream|
    ensures s.delivered != Flat(s.stream)
  {
    LastUnsent(c, s);
    SenderBehind(c, s);
    LiveParts(c, s);
    assert NextAck(s.rcv) <= Top(s.snd);
    hide Live, NextAck, Top, Flat, SysOk, RcvOk, BufOk;
    AckBounds(c, s);
    var k := s.rcv.buf.ack - c.isn;
    LaterBytes(s.stream, k);
    DeliveredPart(c, s);
  }

  lemma LaterBytes(ps: seq<Payload>, k: nat)
    requires k < |ps| && |ps[|ps| - 1]| > 0
    ensures |Flat(ps[..k])| < |Flat(ps)|
  {
    hide Flat;
    var rest := ps[k..];
    assert ps == ps[..k] + rest && rest[|rest| - 1] == ps[|ps| - 1];
    FlatConcat(ps[..k], rest);
    LastCounts(rest);
  }

  lemma LastUnsent(c: Config, s: Sys)
    requires Live(c, s) && Top(s.snd) < c.isn + |s.stream|
    ensures |s.stream| > 0 && |s.stream[|s.stream| - 1]| > 0
  {
    var n := |s.snd.blocks|;
    assert s.snd.blocks[n - 1] == s.stream[|s.stream| - 1];
  }

  lemma DeliveredPart(c: Config, s: Sys)
    requires SysOk(c, s) && 0 <= s.rcv.buf.ack - c.isn <= |s.stream|
    ensures |s.delivered| <= |Flat(s.stream[..s.rcv.buf.ack - c.isn])|
  {
  }

  /** A state outside `GetsThrough` is a dead end. */
  lemma DeadEnd(c: Config, s: Sys, es: seq<Event>, t: Sys)
    requires ConfigOk(c) && Live(c, s) && s.net == {} && !GetsThrough(c, s) && Follows(c, s, es, t)
    ensures t.delivered != Flat(s.stream)
  {
    var g0, top, last, held := NextAck(s.rcv), Top(s.snd), s.rcv.lastAckAck, s.rcv.buf.held.Keys;
    assert Hushed(g0, top, last, held) by {
      hide Top, NextAck, After;
    }
    assert Stuck(c, s, g0, top, last, held) by {
      hide Live, Top, NextAck;
    }
    hide Live, Hushed, Follows, NextAck, Top;
    StuckForever(c, s, es, t, g0, top, last, held);
    NotAllYet(c, t);
  }

  /** The exact condition, for every state of every run in which all packets under way are lost:
      if the state gets through, proper steps without new data can deliver everything handed
      over, and otherwise no steps at all can. */
  lemma DeadEndExactly(c: Config, ss: seq<Sys>, es: seq<Event>, n: int)
    requires ConfigOk(c) && IsRun(c, ss, es) && 0 <= n <= |es|
    ensures var s := ss[n].(net := {});
      (exists es', t :: Leads(c, s, es', t) && t.delivered == Submitted(es[..n])) <==> GetsThrough(c, s)
    ensures var s := ss[n].(net := {});
      (exists es', t :: Follows(c, s, es', t) && t.delivered == Submitted(es[..n])) <==> GetsThrough(c, s)
  {
    hide Live, Leads, Follows, GetsThrough;
    var s := ss[n].(net := {});
    LostAll(c, ss, es, n);
    if GetsThrough(c, s) {
      var es', t := AllDelivered(c, s);
      LeadsFollows(c, s, es', t);
    } else {
      forall es', t | Follows(c, s, es', t) ensures t.delivered != Submitted(es[..n]) {
        DeadEnd(c, s, es', t);
      }
      forall es', t | Leads(c, s, es', t) ensures t.delivered != Submitted(es[..n]) {
        LeadsFollows(c, s, es', t);
      }
    }
  }

  lemma LostAll(c: Config, ss: seq<Sys>, es: seq<Event>, n: int)
    requires ConfigOk(c) && IsRun(c, ss, es) && 0 <= n <= |es|
    ensures Live(c, ss[n].(net := {})) && Flat(ss[n].stream) == Submitted(es[..n])
  {
    hide Live, Next, Flat;
    RunLives(c, ss, es, n);
    AllLost(c, ss[n]);
    RunPrefix(c, ss, es, n);
    StreamIsSubmitted(c, ss[..n + 1], es[..n]);
  }

  /** In particular there is no dead end while the last confirmed position is less than 2^30 - 1
      behind the first gap. */
  lemma NoDeadEnd(c: Config, ss: seq<Sys>, es: seq<Event>, n: int) returns (es': seq<Event>, t: Sys)
    requires ConfigOk(c) && IsRun(c, ss, es) && 0 <= n <= |es|
    requires NextAck(ss[n].rcv) - ss[n].rcv.lastAckAck < SEQ_NO_TH
    ensures Leads(c, ss[n].(net := {}), es', t) && t.delivered == Submitted(es[..n])
  {
    LostAll(c, ss, es, n);
    var s := ss[n].(net := {});
    assert GetsThrough(c, s) by {
      hide After, Top, NextAck;
    }
    hide Live, Leads, GetsThrough, NextAck;
    es', t := AllDelivered(c, s);
  }

  // ---------------------------------------------------------------- a run into a dead end

  /** Everything handed over has been received, read and acknowledged up to `g`, and the sender
      knows, but nothing of it is confirmed. */
  ghost predicate Unconfirmed(c: Config, s: Sys, g: int) {
    && Live(c, s) && AtRest(c, s, g) && g == c.isn + |s.stream| && s.rcv.lastAckAck == c.isn && s.snd.blocks == []
    && g + 2 <= Top(s.snd) && (g > c.isn ==> Top(s.snd) < g + Room(c))
  }

  /** As many packets as the sender ever has to hold in the run below. */
  function Room(c: Config): int {
    MaxInt(c.bufSize, 3)
  }

  /** Every acknowledgement that arrives is answered, no answer arrives, no new packet overtakes
      a loss, and the sender holds few packets at a time. */
  ghost predicate Tame(c: Config, ss: seq<Sys>, es: seq<Event>)
    requires |ss| == |es| + 1
  {
    && (forall i :: 0 <= i < |es| ==> !es[i].Ack2Arrives? && (es[i].Submitting? || Proper(ss[i], es[i])))
    && (forall i :: 0 <= i < |ss| ==> |ss[i].snd.blocks| <= Room(c))
  }

  lemma TameStep(c: Config, ss: seq<Sys>, es: seq<Event>, e: Event, t: Sys)
    requires |ss| == |es| + 1 && Tame(c, ss, es) && !e.Ack2Arrives? && (e.Submitting? || Proper(ss[|es|], e))
    requires |t.snd.blocks| <= Room(c)
    ensures Tame(c, ss + [t], es + [e])
  {
    hide Proper, Room;
  }

  /** What is sent stays in the buffer or leaves it; only new data joins. */
  lemma BuffersLess(c: Config, s: Sys, e: Event)
    requires ConfigOk(c) && Defined(s, e) && !e.Submitting?
    ensures |Step(c, s, e).snd.blocks| <= |s.snd.blocks|
  {
  }

  /** Proper events after a tame run make a longer one. */
  lemma {:induction false} RunOn(c: Config, ss: seq<Sys>, es: seq<Event>, es': seq<Event>, t: Sys)
    returns (ss': seq<Sys>)
    requires ConfigOk(c) && IsRun(c, ss, es) && Tame(c, ss, es) && Leads(c, ss[|es|], es', t) && NoAnswers(es')
    ensures IsRun(c, ss', es + es') && Tame(c, ss', es + es') && ss'[|es + es'|] == t
    decreases |es'|
  {
    hide Step, Enabled, Defined, Proper, Tame;
    if es' == [] {
      ss' := ss;
      assert es + es' == es;
    } else {
      var s, e := ss[|es|], es'[0];
      RunStep(c, ss, es, e);
      AtMostRoom(c, ss, es);
      ProperIsOld(s, e);
      BuffersLess(c, s, e);
      TameStep(c, ss, es, e, Step(c, s, e));
      ss' := RunOn(c, ss + [Step(c, s, e)], es + [e], es'[1..], t);
      assert es + es' == es + [e] + es'[1..];
    }
  }

  lemma AtMostRoom(c: Config, ss: seq<Sys>, es: seq<Event>)
    requires |ss| == |es| + 1 && Tame(c, ss, es)
    ensures |ss[|es|].snd.blocks| <= Room(c)
  {
  }

  lemma ProperIsOld(s: Sys, e: Event)
    requires Proper(s, e)
    ensures !e.Submitting?
  {
  }

  /** The application hands over `n` packets more. */
  lemma HandOver(c: Config, ss: seq<Sys>, es: seq<Event>, n: nat) returns (ss': seq<Sys>, e: Event)
    requires ConfigOk(c) && IsRun(c, ss, es) && Tame(c, ss, es) && n <= Room(c)
    requires ss[|es|].snd.blocks == [] && Live(c, ss[|es|])
    ensures IsRun(c, ss', es + [e]) && Tame(c, ss', es + [e]) && Live(c, ss'[|es| + 1])
    ensures var s, t := ss[|es|], ss'[|es| + 1];
      |t.stream| == |s.stream| + n && t.rcv == s.rcv && t.delivered == s.delivered && Top(t.snd) == Top(s.snd)
      && t.stream[..|s.stream|] == s.stream && t.snd.ack == s.snd.ack && t.snd.curr == s.snd.curr
  {
    hide Live, Tame, Chunks;
    var data: seq<Byte> := seq(n * c.mss, _ => 0);
    ChunksCounted(data, c.mss);
    Quotient(n * c.mss, c.mss, n, 0);
    var s := ss[|es|];
    e := Submitting(data);
    StepLives(c, s, e);
    RunStep(c, ss, es, e);
    TameStep(c, ss, es, e, Step(c, s, e));
    ss' := ss + [Step(c, s, e)];
  }

  /** What has been handed over goes all the way, and the receiver announces it; the sender takes
      that in and answers. */
  lemma AllTheWay(c: Config, s: Sys, g: int) returns (es: seq<Event>, t: Sys)
    requires ConfigOk(c) && Live(c, s) && s.rcv.lastAckAck == c.isn && g == c.isn + |s.stream|
    requires NextAck(s.rcv) <= g <= Top(s.snd) && After(g, c.isn) && g !in s.rcv.buf.held
    ensures Leads(c, s, es, t) && NoAnswers(es) && Unconfirmed(c, t, g)
  {
    hide Live, Leads, NoAnswers, Step, NextAck, After, Top, AvailSize, Unconfirmed, Room, Flat;
    NoEvents(c, s);
    var es1, s1 := Reach(c, s, [], s, g);
    LiveParts(c, s1);
    LeadsStep(c, s, es1, s1, SendingAck(false));
    var s2 := Step(c, s1, SendingAck(false));
    AckGoesOut(c, s1);
    SameGap(s1.rcv, s2.rcv);
    var e := AckArrives(s2.rcv.ackSeqNo, g, MaxInt(AvailSize(s1.rcv.buf), 2), true);
    LeadsStep(c, s, es1 + [SendingAck(false)], s2, e);
    es, t := es1 + [SendingAck(false)] + [e], Step(c, s2, e);
    AckTaken(c, s2, e);
    AckOpens(c, s2, e);
    StillAtRest(c, s1, t, g);
  }

  lemma StillAtRest(c: Config, s: Sys, t: Sys, g: int)
    requires AtRest(c, s, g) && t.rcv.buf == s.rcv.buf && NextAck(t.rcv) == NextAck(s.rcv)
    requires t.delivered == s.delivered && t.stream == s.stream && t.rcv.lastAckAck == c.isn && Live(c, t)
    requires g == c.isn + |t.stream| && t.snd.blocks == [] && g + 2 <= Top(t.snd) < g + Room(c)
    ensures Unconfirmed(c, t, g)
  {
    hide Live, NextAck, Top, Flat, Room;
  }

  /** `g - k` packets more. */
  lemma Further(c: Config, ss: seq<Sys>, es: seq<Event>, k: int, g: int) returns (ss': seq<Sys>, es': seq<Event>)
    requires ConfigOk(c) && IsRun(c, ss, es) && Tame(c, ss, es) && Unconfirmed(c, ss[|es|], k)
    requires k < g <= Top(ss[|es|].snd) && (k == c.isn ==> g == k + 1) && After(g, c.isn)
    ensures IsRun(c, ss', es') && Tame(c, ss', es') && Unconfirmed(c, ss'[|es'|], g)
  {
    hide Live, Leads, NoAnswers, NextAck, After, Top, Tame, Next;
    HeldSent(c, ss[|es|]);
    var ss0, e0 := HandOver(c, ss, es, g - k);
    var es1, t := AllTheWay(c, ss0[|es| + 1], g);
    ss' := RunOn(c, ss0, es + [e0], es1, t);
    es' := es + [e0] + es1;
  }

  lemma HeldSent(c: Config, s: Sys)
    requires Live(c, s)
    ensures forall x :: x in s.rcv.buf.held ==> x < c.isn + |s.stream|
  {
    AckBounds(c, s);
  }

  lemma AckOpens(c: Config, s: Sys, e: Event)
    requires ConfigOk(c) && Live(c, s) && e.AckArrives? && Enabled(s, e) && Defined(s, e)
    requires e.a == NextAck(s.rcv) == c.isn + |s.stream| && 2 <= e.w <= MaxInt(AvailSize(s.rcv.buf), 2)
    ensures var t := Step(c, s, e); t.snd.blocks == [] && e.a + 2 <= Top(t.snd) < e.a + Room(c)
  {
    SenderBehind(c, s);
  }

  /** On and on, from one announced position to the next that the window reaches, until there is
      none: one packet more, and the receiver has fallen silent. */
  lemma {:induction false} RunDry(c: Config, ss: seq<Sys>, es: seq<Event>, k: int)
    returns (ss': seq<Sys>, es': seq<Event>)
    requires ConfigOk(c) && IsRun(c, ss, es) && Tame(c, ss, es) && Unconfirmed(c, ss[|es|], k)
    ensures IsRun(c, ss', es') && Tame(c, ss', es') && !GetsThrough(c, ss'[|es'|])
    decreases c.isn + MaxLag(c) - k
  {
    hide Live, Leads, NoAnswers, NextAck, After, Top, Tame, Next;
    var top := Top(ss[|es|].snd);
    TopClose(c, ss[|es|]);
    CloseIsHeard(c.isn, k + 1);
    if After(k + 1, c.isn) {
      ss', es' := Further(c, ss, es, k, k + 1);
      ss', es' := RunDry(c, ss', es', k + 1);
    } else if g :| k < g <= top && After(g, c.isn) {
      ss', es' := Further(c, ss, es, k, g);
      ss', es' := RunDry(c, ss', es', g);
    } else {
      HeldSent(c, ss[|es|]);
      var ss0, e0 := HandOver(c, ss, es, top - k + 1);
      var s := ss0[|es| + 1];
      NoEvents(c, s);
      var es1, t := Reach(c, s, [], s, k + 1);
      ss' := RunOn(c, ss0, es + [e0], es1, t);
      es' := es + [e0] + es1;
    }
  }

  lemma TopClose(c: Config, s: Sys)
    requires Live(c, s) && s.rcv.lastAckAck == c.isn
    ensures Top(s.snd) <= c.isn + MaxLag(c)
  {
  }

  lemma CloseIsHeard(isn: int, g: int)
    requires g > isn
    ensures g - isn < SEQ_NO_TH ==> After(g, isn)
  {
    if g - isn < SEQ_NO_TH {
      SeqCmpExactly(g, isn);
    }
  }

  /** Dead ends are reached, in every configuration: a run in which every acknowledgement that
      arrives is answered, no answer arrives, and after which, all packets lost, no further
      steps deliver what was handed over. */
  lemma DeadEndReached(c: Config) returns (ss: seq<Sys>, es: seq<Event>)
    requires ConfigOk(c)
    ensures IsRun(c, ss, es) && Tame(c, ss, es) && !GetsThrough(c, ss[|es|])
    ensures forall es', t :: Follows(c, ss[|es|].(net := {}), es', t) ==> t.delivered != Submitted(es)
  {
    hide Live, Follows, GetsThrough, Tame;
    StartLives(c);
    NothingYet(c);
    ss, es := RunDry(c, [Start(c)], [], c.isn);
    LostAll(c, ss, es, |es|);
    assert es[..|es|] == es;
    NetAside(c, ss[|es|]);
    forall es', t | Follows(c, ss[|es|].(net := {}), es', t) ensures t.delivered != Submitted(es) {
      DeadEnd(c, ss[|es|].(net := {}), es', t);
    }
  }

  lemma NetAside(c: Config, s: Sys)
    ensures GetsThrough(c, s.(net := {})) <==> GetsThrough(c, s)
  {
    hide Top, NextAck, After;
  }

  lemma NothingYet(c: Config)
    requires ConfigOk(c) && Live(c, Start(c))
    ensures Unconfirmed(c, Start(c), c.isn) && Tame(c, [Start(c)], [])
  {
    hide Live;
    NoBytes();
  }
}
