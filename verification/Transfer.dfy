/** The sessions' loops, joined by first-in first-out channels, are the pair: a run of the pair
    is what the two loops do when each reads what the other says, and such a run exists and
    ends with the merged file. */
module Transfer {
  import opened Bytes
  import opened Sync
  import opened Lockstep
  import Session

  /** What each side reads and says in a run. */
  datatype Talk = Talk(readS: seq<Msg>, readR: seq<Msg>, saidS: seq<Msg>, saidR: seq<Msg>)

  function Turn(c: Config, src: Payload, srcTs: nat, t: Sys, e: Event): Talk
    requires Enabled(t, e)
  {
    match e
    case Sending =>
      if SendWaits(t.s.pc) then Talk(t.toS[..1], [], SendRead(c, src, srcTs, t.s, t.toS[0]).1, [])
      else Talk([], [], SendAct(c, src, srcTs, t.s).1, [])
    case Receiving =>
      if RecvWaits(t.r) then Talk([], t.toR[..1], [], RecvRead(c, t.r, t.toR[0]).1)
      else Talk([], [], [], RecvAct(t.r).1)
    case Restarting(_, _) => Talk([], [], [], [])
  }

  function TalkOf(c: Config, src: Payload, srcTs: nat, t: Sys, es: seq<Event>): Talk
    requires IsRun(c, src, srcTs, t, es)
    decreases |es|
  {
    if es == [] then Talk([], [], [], [])
    else
      var a, b := Turn(c, src, srcTs, t, es[0]), TalkOf(c, src, srcTs, Step(c, src, srcTs, t, es[0]), es[1..]);
      Talk(a.readS + b.readS, a.readR + b.readR, a.saidS + b.saidS, a.saidR + b.saidR)
  }

  /** One step of the pair is one step of each session. */
  lemma SenderTurn(c: Config, src: Payload, srcTs: nat, t: Sys, e: Event, more: seq<Msg>)
    requires Enabled(t, e) && !IsRestart(e)
    ensures var a, t1 := Turn(c, src, srcTs, t, e), Step(c, src, srcTs, t, e);
      Session.SendRun(c, src, srcTs, t.s, a.readS + more) == Session.SendRun(c, src, srcTs, t1.s, more).Saying(a.saidS)
  {
    hide ChunkAt, SendRead, SendAct, RecvRead, RecvAct;
    var a := Turn(c, src, srcTs, t, e);
    assert a.readS != [] ==> (a.readS + more)[1..] == more;
    assert a.readS == [] ==> a.readS + more == more;
  }

  lemma ReceiverTurn(c: Config, src: Payload, srcTs: nat, t: Sys, e: Event, more: seq<Msg>)
    requires Enabled(t, e) && !IsRestart(e)
    ensures var a, t1 := Turn(c, src, srcTs, t, e), Step(c, src, srcTs, t, e);
      Session.RecvRun(c, t.r, a.readR + more, []) == Session.RecvRun(c, t1.r, more, []).Saying(a.saidR)
  {
    hide ChunkAt, SendRead, SendAct, RecvRead, RecvAct, Lands;
    var a := Turn(c, src, srcTs, t, e);
    assert a.readR != [] ==> (a.readR + more)[1..] == more;
    assert a.readR == [] ==> a.readR + more == more;
  }

  lemma ChannelsTurn(c: Config, src: Payload, srcTs: nat, t: Sys, e: Event)
    requires Enabled(t, e) && !IsRestart(e)
    ensures var a, t1 := Turn(c, src, srcTs, t, e), Step(c, src, srcTs, t, e);
      t.toS + a.saidR == a.readS + t1.toS && t.toR + a.saidS == a.readR + t1.toR
  {
    hide ChunkAt, SendRead, SendAct, RecvRead, RecvAct, Lands;
  }

  /** In a run without restarts each side does what its session does on the messages read. */
  lemma {:induction false} SidesPlay(c: Config, src: Payload, srcTs: nat, t: Sys, es: seq<Event>)
    requires IsRun(c, src, srcTs, t, es) && Restarts(es) == 0
    ensures var x, t' := TalkOf(c, src, srcTs, t, es), After(c, src, srcTs, t, es);
      && Session.SendRun(c, src, srcTs, t.s, x.readS) == Session.SendRun(c, src, srcTs, t'.s, []).Saying(x.saidS)
      && Session.RecvRun(c, t.r, x.readR, []) == Session.RecvRun(c, t'.r, [], []).Saying(x.saidR)
    decreases |es|
  {
    hide Session.SendRun, Session.RecvRun, Step, Turn, Enabled;
    if es != [] {
      var t1 := Step(c, src, srcTs, t, es[0]);
      var a, b := Turn(c, src, srcTs, t, es[0]), TalkOf(c, src, srcTs, t1, es[1..]);
      SidesPlay(c, src, srcTs, t1, es[1..]);
      SenderTurn(c, src, srcTs, t, es[0], b.readS);
      ReceiverTurn(c, src, srcTs, t, es[0], b.readR);
      var t' := After(c, src, srcTs, t, es);
      var sd, rd := Session.SendRun(c, src, srcTs, t'.s, []), Session.RecvRun(c, t'.r, [], []);
      Grouped(a.saidS, b.saidS, sd.out);
      Grouped(a.saidR, b.saidR, rd.out);
    }
  }

  lemma Grouped(a: seq<Msg>, b: seq<Msg>, c: seq<Msg>)
    ensures a + (b + c) == (a + b) + c
  {
  }

  lemma Chained(u: seq<Msg>, a: seq<Msg>, b: seq<Msg>, c: seq<Msg>, v: seq<Msg>, d: seq<Msg>, w: seq<Msg>)
    requires u + a == c + v && v + b == d + w
    ensures u + (a + b) == (c + d) + w
  {
    assert u + (a + b) == (u + a) + b == c + (v + b) == (c + d) + w;
  }

  /** Each side reads, in order, what the other says. */
  lemma {:induction false} ChannelsCarry(c: Config, src: Payload, srcTs: nat, t: Sys, es: seq<Event>)
    requires IsRun(c, src, srcTs, t, es) && Restarts(es) == 0
    ensures var x, t' := TalkOf(c, src, srcTs, t, es), After(c, src, srcTs, t, es);
      t.toS + x.saidR == x.readS + t'.toS && t.toR + x.saidS == x.readR + t'.toR
    decreases |es|
  {
    hide Step, Turn, Enabled;
    if es != [] {
      var t1 := Step(c, src, srcTs, t, es[0]);
      var a, b := Turn(c, src, srcTs, t, es[0]), TalkOf(c, src, srcTs, t1, es[1..]);
      ChannelsCarry(c, src, srcTs, t1, es[1..]);
      ChannelsTurn(c, src, srcTs, t, es[0]);
      var t' := After(c, src, srcTs, t, es);
      Chained(t.toS, a.saidR, b.saidR, a.readS, t1.toS, b.readS, t'.toS);
      Chained(t.toR, a.saidS, b.saidS, a.readR, t1.toR, b.readR, t'.toR);
    }
  }

  /** From every reachable state the attempt under way can be carried to its end. */
  lemma {:induction false} CarriedToEnd(c: Config, src: Payload, srcTs: nat, first: Option<Payload>, t: Sys)
    returns (es: seq<Event>)
    requires c.chunk > 0 && Sound(c, src, first, t)
    ensures IsRun(c, src, srcTs, t, es) && Restarts(es) == 0 && Done(After(c, src, srcTs, t, es))
    decreases Work(src, t)
  {
    hide InStep, OnCourse, Step, Work, Enabled;
    NeverStuck(c, src, first, t);
    if Done(t) {
      es := [];
    } else {
      var e := if Enabled(t, Sending) then Sending else Receiving;
      StepKeeps(c, src, srcTs, first, t, e);
      if e.Sending? {
        SendingWorks(c, src, srcTs, t);
      } else {
        ReceivingWorks(c, src, srcTs, t);
      }
      var t1 := Step(c, src, srcTs, t, e);
      var rest := CarriedToEnd(c, src, srcTs, first, t1);
      es := [e] + rest;
      assert es[0] == e && es[1..] == rest;
    }
  }

  /** For every source, copy, direction and chunk size there are two conversations that answer
      each other: reading `inS` the sender's loops finish and say exactly `inR`; reading `inR`
      the receiver's loops finish, say exactly `inS`, and leave the merged file. */
  lemma SessionsMeet(c: Config, src: Payload, srcTs: nat, first: Option<Payload>, ts: nat, up: bool)
    returns (inS: seq<Msg>, inR: seq<Msg>)
    requires c.chunk > 0
    ensures var t0 := Fresh(first, ts, up, [], []);
      var s, r := Session.SendRun(c, src, srcTs, t0.s, inS), Session.RecvRun(c, t0.r, inR, []);
      && s.last.pc.SDone? && s.out == inR && s.rest == []
      && r.last.pc.RDone? && r.out == inS && r.rest == []
      && r.last.file == Some(Merge(c, src, Base(src, first), 0))
      && Offsets(inR) == Differing(c, src, Base(src, first), 0)
  {
    hide Merge, Differing, Settled, Deceived, Base, InStep, OnCourse, Offsets, TalkOf;
    hide Session.SendRun, Session.RecvRun;
    var t0 := Fresh(first, ts, up, [], []);
    FreshSound(c, src, first, ts, up);
    var es := CarriedToEnd(c, src, srcTs, first, t0);
    TransferCorrect(c, src, srcTs, first, ts, up, es);
    SidesPlay(c, src, srcTs, t0, es);
    ChannelsCarry(c, src, srcTs, t0, es);
    var x := TalkOf(c, src, srcTs, t0, es);
    var t := After(c, src, srcTs, t0, es);
    inS, inR := x.readS, x.readR;
    Whole(x.saidR, x.readS);
    Whole(x.saidS, x.readR);
    AllSaidLands(c, src, srcTs, first, t0, es);
    RunsOver(c, src, srcTs, t);
  }

  lemma Whole(a: seq<Msg>, b: seq<Msg>)
    ensures [] + a == b + [] ==> a == b
    ensures a + [] == a
  {
    assert [] + a == a && b + [] == b;
  }

  lemma RunsOver(c: Config, src: Payload, srcTs: nat, t: Sys)
    requires Done(t)
    ensures Session.SendRun(c, src, srcTs, t.s, []) == Session.Ran(t.s, [], [])
    ensures Session.RecvRun(c, t.r, [], []) == Session.Ran(t.r, [], [])
  {
  }

  lemma AllSaidLands(c: Config, src: Payload, srcTs: nat, first: Option<Payload>, t: Sys, es: seq<Event>)
    requires c.chunk > 0 && Sound(c, src, first, t) && IsRun(c, src, srcTs, t, es) && Restarts(es) == 0
    requires t.landed == [] && t.toR == [] && After(c, src, srcTs, t, es).toR == []
    ensures Offsets(TalkOf(c, src, srcTs, t, es).saidS) == After(c, src, srcTs, t, es).landed
  {
    hide Sound, IsRun, After, TalkOf, Offsets;
    SaidIsLanded(c, src, srcTs, first, t, es);
    NoOffsets();
    var said, landed := Offsets(TalkOf(c, src, srcTs, t, es).saidS), After(c, src, srcTs, t, es).landed;
    assert landed + [] == landed && [] + [] + said == said;
  }

  /** What has landed is what the sender has said, up to what is under way. */
  lemma {:induction false} SaidIsLanded(c: Config, src: Payload, srcTs: nat, first: Option<Payload>, t: Sys,
                                        es: seq<Event>)
    requires c.chunk > 0 && Sound(c, src, first, t) && IsRun(c, src, srcTs, t, es) && Restarts(es) == 0
    ensures var x, t' := TalkOf(c, src, srcTs, t, es), After(c, src, srcTs, t, es);
      t'.landed + Offsets(t'.toR) == t.landed + Offsets(t.toR) + Offsets(x.saidS)
    decreases |es|
  {
    hide InStep, OnCourse, Step, Turn, Enabled, Offsets;
    if es == [] {
      NoOffsets();
    } else {
      var t1 := Step(c, src, srcTs, t, es[0]);
      var a, b := Turn(c, src, srcTs, t, es[0]), TalkOf(c, src, srcTs, t1, es[1..]);
      StepKeeps(c, src, srcTs, first, t, es[0]);
      SaidIsLanded(c, src, srcTs, first, t1, es[1..]);
      LandedTurn(c, src, srcTs, t, es[0]);
      OffsetsConcat(a.saidS, b.saidS);
    }
  }

  lemma LandedTurn(c: Config, src: Payload, srcTs: nat, t: Sys, e: Event)
    requires c.chunk > 0 && InStep(c, src, t) && Enabled(t, e) && !IsRestart(e)
    ensures var a, t1 := Turn(c, src, srcTs, t, e), Step(c, src, srcTs, t, e);
      t1.landed + Offsets(t1.toR) == t.landed + Offsets(t.toR) + Offsets(a.saidS)
  {
    hide InStep, ChunkAt, SendRead, SendAct, RecvRead, RecvAct, Lands;
    if e.Receiving? {
      ReceivedOffsets(c, src, srcTs, t);
    } else {
      OffsetsConcat(t.toR, Turn(c, src, srcTs, t, e).saidS);
    }
  }

  lemma NoOffsets()
    ensures Offsets([]) == []
  {
  }
}
