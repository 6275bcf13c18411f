/** The sending half of a connection as a value, in terms of unbounded stream positions:
    the steps that packData, the ACK and NAK branches of processCtrl and the expiry branch of
    checkTimers take, and what all of them keep. */
module SenderModel {
  import opened Bytes
  import opened LossNodes

  /** `blocks` are the packets from `dataAck` on; the first `sent` of them have been sent. */
  datatype Snd = Snd(blocks: seq<Payload>, sent: int, dataAck: int, ack: int, curr: int,
                     window: int, loss: set<int>, broken: bool)

  function InitSnd(isn: int, window: int): Snd {
    Snd([], 0, isn, isn, isn - 1, window, {}, false)
  }

  /** `w` bounds every window the peer advertises. */
  predicate SndOk(s: Snd, w: int) {
    && s.dataAck <= s.ack <= s.curr + 1
    && s.sent == s.curr + 1 - s.dataAck <= |s.blocks|
    && (forall i :: 0 <= i < |s.blocks| ==> |s.blocks[i]| > 0)
    && (forall x :: x in s.loss ==> s.dataAck <= x <= s.curr)
    && s.curr < s.dataAck + w
    && s.ack + s.window <= s.dataAck + w
  }

  ghost predicate IsMin(loss: set<int>, x: int) {
    x in loss && forall y :: y in loss ==> x <= y
  }

  lemma AnyElement<T>(s: set<T>) returns (x: T)
    requires s != {}
    ensures x in s
  {
    x :| x in s;
  }

  lemma {:induction false} MinExists(loss: set<int>)
    requires loss != {}
    ensures exists x :: IsMin(loss, x)
    decreases |loss|
  {
    var x := AnyElement(loss);
    var rest := loss - {x};
    assert |rest| < |loss| && forall y :: y in loss ==> y == x || y in rest;
    if rest == {} {
      assert IsMin(loss, x);
    } else {
      MinExists(rest);
      var y :| IsMin(rest, y);
      assert IsMin(loss, if x < y then x else y);
    }
  }

  ghost function Min(loss: set<int>): (x: int)
    requires loss != {}
    ensures IsMin(loss, x)
  {
    MinExists(loss);
    var x :| IsMin(loss, x);
    x
  }

  lemma MinIs(loss: set<int>, x: int)
    requires IsMin(loss, x)
    ensures loss != {} && Min(loss) == x
  {
  }

  // ---------------------------------------------------------------- steps

  /** The application hands over more data. */
  function Submit(s: Snd, ps: seq<Payload>): Snd {
    s.(blocks := s.blocks + ps)
  }

  /** The least lost position leaves the loss list ... */
  ghost function TakeLost(s: Snd): (Snd, Option<int>) {
    if s.loss == {} then (s, None) else (s.(loss := s.loss - {Min(s.loss)}), Some(Min(s.loss)))
  }

  /** ... and is looked up later: an acknowledgement may have released it in between. */
  function LookUp(s: Snd, x: int): Option<Payload>
    requires x - s.dataAck < |s.blocks|
  {
    if x - s.dataAck < 0 then None else Some(s.blocks[x - s.dataAck])
  }

  predicate WindowOpen(s: Snd, congestion: int) {
    (if s.window < congestion then s.window else congestion) >= s.curr + 1 - s.ack + 1
  }

  /** A packet that has never been sent, if both windows allow it and there is one. */
  function SendNew(s: Snd, congestion: int): (Snd, Option<Payload>)
    requires 0 <= s.sent
  {
    if WindowOpen(s, congestion) && s.sent < |s.blocks| then
      (s.(curr := s.curr + 1, sent := s.sent + 1), Some(s.blocks[s.sent]))
    else (s, None)
  }

  /** A lite acknowledgement moves the left edge of the window and keeps its right edge. */
  function LiteAck(s: Snd, a: int): Snd {
    if a >= s.ack then s.(window := s.window - (a - s.ack), ack := a) else s
  }

  /** A full acknowledgement also sets the window and releases data. */
  function FullAck(s: Snd, a: int, w: int): Snd
    requires a - s.dataAck <= |s.blocks| || a > s.curr + 1
  {
    if a > s.curr + 1 then s.(broken := true)
    else
      var s1 := if a >= s.ack then s.(window := w, ack := a) else s;
      if a - s.dataAck <= 0 then s1
      else s1.(blocks := s.blocks[a - s.dataAck..], sent := s.sent - (a - s.dataAck), dataAck := a,
               loss := set x | x in s.loss && x > a - 1)
  }

  /** What one range of a loss report adds to the loss list; false when it names numbers that
      were never sent. */
  function NakOne(loss: set<int>, ack: int, curr: int, r: Range): (set<int>, bool) {
    if r.lo != r.hi then
      if r.lo > r.hi || r.hi > curr then (loss, false)
      else if r.lo >= ack then (loss + Span(r.lo, r.hi), true)
      else if r.hi >= ack then (loss + Span(ack, r.hi), true)
      else (loss, true)
    else if r.lo >= ack then
      if r.lo > curr then (loss, false) else (loss + Span(r.lo, r.lo), true)
    else (loss, true)
  }

  /** What a whole report adds, up to the first range that names numbers never sent. */
  function NakLoss(loss: set<int>, ack: int, curr: int, report: seq<Range>): (set<int>, bool)
    decreases |report|
  {
    if |report| == 0 then (loss, true)
    else
      var (loss', secure) := NakOne(loss, ack, curr, report[0]);
      if secure then NakLoss(loss', ack, curr, report[1..]) else (loss', false)
  }

  function Nak(s: Snd, report: seq<Range>): Snd {
    var (loss, secure) := NakLoss(s.loss, s.ack, s.curr, report);
    s.(loss := loss, broken := s.broken || !secure)
  }

  /** Nothing has been heard for too long: everything unacknowledged counts as lost, unless
      losses are pending already. */
  function Timeout(s: Snd): Snd {
    if |s.blocks| > 0 && s.curr + 1 != s.ack && s.loss == {} then s.(loss := Span(s.ack, s.curr)) else s
  }

  // ---------------------------------------------------------------- what the steps keep

  lemma InitSndOk(isn: int, w: int)
    requires w >= 0
    ensures SndOk(InitSnd(isn, w), w)
  {
  }

  lemma SubmitOk(s: Snd, w: int, ps: seq<Payload>)
    requires SndOk(s, w) && forall i :: 0 <= i < |ps| ==> |ps[i]| > 0
    ensures SndOk(Submit(s, ps), w)
  {
  }

  lemma TakeLostOk(s: Snd, w: int)
    requires SndOk(s, w)
    ensures SndOk(TakeLost(s).0, w)
    ensures TakeLost(s).1.Some? <==> s.loss != {}
    ensures TakeLost(s).1.Some? ==> IsMin(s.loss, TakeLost(s).1.value) && s.dataAck <= TakeLost(s).1.value <= s.curr
    ensures TakeLost(s).0 == s.(loss := TakeLost(s).0.loss)
    ensures forall x :: x in TakeLost(s).0.loss <==> x in s.loss && Some(x) != TakeLost(s).1
  {
  }

  lemma SendNewOk(s: Snd, w: int, congestion: int)
    requires SndOk(s, w)
    ensures SndOk(SendNew(s, congestion).0, w)
  {
  }

  /** How many sent packets are not acknowledged. */
  function Outstanding(s: Snd): int {
    s.curr + 1 - s.ack
  }

  /** A packet that goes out is the next unsent one, and with it no more are outstanding than
      either window allows; none goes out only if none is unsent or one more would be too many. */
  lemma SendNewExact(s: Snd, w: int, congestion: int)
    requires SndOk(s, w)
    ensures var (t, p) := SendNew(s, congestion);
      match p
      case Some(payload) =>
        && Outstanding(t) == Outstanding(s) + 1 && Outstanding(t) <= s.window && Outstanding(t) <= congestion
        && s.curr - s.dataAck + 1 < |s.blocks| && payload == s.blocks[s.curr - s.dataAck + 1]
        && t == s.(curr := s.curr + 1, sent := s.sent + 1)
      case None =>
        && t == s
        && (s.curr - s.dataAck + 1 == |s.blocks| || Outstanding(s) + 1 > s.window || Outstanding(s) + 1 > congestion)
  {
  }

  /** `n` chances to send a new packet. */
  function Burst(s: Snd, congestion: int, n: nat): Snd
    requires 0 <= s.sent
    decreases n
  {
    if n == 0 then s else Burst(SendNew(s, congestion).0, congestion, n - 1)
  }

  function MinInt(a: int, b: int): int {
    if a < b then a else b
  }

  /** What is free in the narrower of the two windows. */
  function Free(s: Snd, congestion: int): nat {
    var free := MinInt(s.window, congestion) - Outstanding(s);
    if free > 0 then free else 0
  }

  /** However many chances, as many packets go out as are unsent and as fit into both windows. */
  lemma {:induction false} BurstExactly(s: Snd, w: int, congestion: int, n: nat)
    requires SndOk(s, w)
    ensures var t := Burst(s, congestion, n);
      && t.curr == s.curr + MinInt(n, MinInt(|s.blocks| - s.sent, Free(s, congestion)))
      && t == s.(curr := t.curr, sent := t.sent)
    decreases n
  {
    if n > 0 {
      SendNewExact(s, w, congestion);
      SendNewOk(s, w, congestion);
      BurstExactly(SendNew(s, congestion).0, w, congestion, n - 1);
      hide SendNew;
    }
  }

  /** An acknowledgement of nothing beyond what was sent keeps the sender consistent. */
  lemma LiteAckOk(s: Snd, w: int, a: int)
    requires SndOk(s, w) && a <= s.curr + 1
    ensures SndOk(LiteAck(s, a), w)
    ensures LiteAck(s, a).ack + LiteAck(s, a).window == s.ack + s.window
    ensures LiteAck(s, a).ack == if a > s.ack then a else s.ack
    ensures LiteAck(s, a) == s.(ack := LiteAck(s, a).ack, window := LiteAck(s, a).window)
  {
  }

  lemma FullAckOk(s: Snd, w: int, a: int, window: int)
    requires SndOk(s, w) && window <= w
    ensures SndOk(FullAck(s, a, window), w)
    ensures FullAck(s, a, window).broken <==> s.broken || a > s.curr + 1
  {
  }

  /** What a full acknowledgement of sent packets changes: the edge moves up, the window is the
      advertised one unless the acknowledgement is older, and exactly the packets and losses
      below it go.  One of packets never sent changes nothing but the verdict on the peer. */
  lemma FullAckExact(s: Snd, w: int, a: int, window: int)
    requires SndOk(s, w)
    ensures var t := FullAck(s, a, window);
      a <= s.curr + 1 ==>
      && t.ack == (if a > s.ack then a else s.ack) && t.window == (if a < s.ack then s.window else window)
      && t.dataAck == (if a > s.dataAck then a else s.dataAck)
      && t.dataAck - s.dataAck <= |s.blocks| && t.blocks == s.blocks[t.dataAck - s.dataAck..]
      && (forall x :: x in t.loss <==> x in s.loss && x >= a)
      && t.curr == s.curr && t.sent == s.curr + 1 - t.dataAck && t.broken == s.broken
    ensures a > s.curr + 1 ==> FullAck(s, a, window) == s.(broken := true)
  {
    if a <= s.dataAck {
      AckReleasesNothing(s, a, window);
      assert forall x :: x in s.loss ==> x >= a;
    } else if a <= s.curr + 1 {
      AckReleases(s, a, window);
    }
    hide FullAck;
  }

  lemma AckReleasesNothing(s: Snd, a: int, window: int)
    requires a <= s.dataAck <= s.ack <= s.curr + 1
    ensures FullAck(s, a, window) == if a < s.ack then s else s.(window := window, ack := a)
  {
  }

  lemma AckReleases(s: Snd, a: int, window: int)
    requires s.dataAck < a <= s.curr + 1 && a - s.dataAck <= |s.blocks|
    ensures var t := FullAck(s, a, window);
      && t.ack == (if a > s.ack then a else s.ack) && t.window == (if a < s.ack then s.window else window)
      && t.dataAck == a && t.blocks == s.blocks[a - s.dataAck..] && t.sent == s.sent - (a - s.dataAck)
      && t.curr == s.curr && t.broken == s.broken
      && (forall x :: x in t.loss <==> x in s.loss && x >= a)
  {
  }

  /** A report of positions that have been sent adds exactly those it names that are not
      acknowledged, and is never taken for an attack. */
  lemma {:induction false} NakLossExact(loss: set<int>, ack: int, curr: int, report: seq<Range>)
    requires forall i :: 0 <= i < |report| ==> report[i].lo <= report[i].hi <= curr
    ensures NakLoss(loss, ack, curr, report).1
    ensures forall x :: x in NakLoss(loss, ack, curr, report).0 <==>
                          x in loss || (x >= ack && Covers(report, x))
    decreases |report|
  {
    if |report| > 0 {
      var rest := report[1..];
      assert forall i :: 0 <= i < |rest| ==> rest[i] == report[i + 1];
      NakLossExact(NakOne(loss, ack, curr, report[0]).0, ack, curr, rest);
      CoversFirst(report);
    }
  }

  lemma CoversFirst(ns: seq<Range>)
    requires |ns| > 0
    ensures forall x :: Covers(ns, x) <==> ns[0].lo <= x <= ns[0].hi || Covers(ns[1..], x)
  {
    forall x | Covers(ns, x)
      ensures ns[0].lo <= x <= ns[0].hi || Covers(ns[1..], x)
    {
      var k :| 0 <= k < |ns| && ns[k].lo <= x <= ns[k].hi;
      if k > 0 { assert ns[1..][k - 1] == ns[k]; }
    }
    forall x | Covers(ns[1..], x)
      ensures Covers(ns, x)
    {
      var k :| 0 <= k < |ns[1..]| && ns[1..][k].lo <= x <= ns[1..][k].hi;
      assert ns[k + 1] == ns[1..][k];
    }
  }

  /** Whatever a report says, the loss list never leaves the sent and unreleased positions. */
  lemma {:induction false} NakLossWithin(loss: set<int>, ack: int, curr: int, report: seq<Range>, lo: int)
    requires lo <= ack && forall x :: x in loss ==> lo <= x <= curr
    ensures forall x :: x in NakLoss(loss, ack, curr, report).0 ==> lo <= x <= curr
    decreases |report|
  {
    if |report| > 0 {
      var (loss', secure) := NakOne(loss, ack, curr, report[0]);
      if secure { NakLossWithin(loss', ack, curr, report[1..], lo); }
    }
  }

  lemma NakOk(s: Snd, w: int, report: seq<Range>)
    requires SndOk(s, w)
    ensures SndOk(Nak(s, report), w)
  {
    NakLossWithin(s.loss, s.ack, s.curr, report, s.dataAck);
  }

  lemma TimeoutOk(s: Snd, w: int)
    requires SndOk(s, w)
    ensures SndOk(Timeout(s), w)
  {
  }

  /** With no loss pending exactly the outstanding packets become lost; pending losses stay as
      they are, and nothing else changes in either case. */
  lemma TimeoutExact(s: Snd, w: int)
    requires SndOk(s, w)
    ensures Timeout(s) == s.(loss := Timeout(s).loss)
    ensures forall x :: x in Timeout(s).loss <==> x in s.loss || (s.loss == {} && s.ack <= x <= s.curr)
  {
  }

  // ---------------------------------------------------------------- any loss report

  /** An entry that names numbers never sent, in the order the code tells. */
  predicate Bad(ack: int, curr: int, r: Range) {
    if r.lo == r.hi then r.lo >= ack && r.lo > curr else r.lo > r.hi || r.hi > curr
  }

  /** The entries before the first bad one. */
  function Trusted(ack: int, curr: int, report: seq<Range>): seq<Range>
    decreases |report|
  {
    if report == [] || Bad(ack, curr, report[0]) then [] else [report[0]] + Trusted(ack, curr, report[1..])
  }

  lemma {:induction false} TrustedIsPrefix(ack: int, curr: int, report: seq<Range>)
    ensures var k := |Trusted(ack, curr, report)|;
      && k <= |report| && Trusted(ack, curr, report) == report[..k]
      && (forall i :: 0 <= i < k ==> !Bad(ack, curr, report[i]))
      && (k < |report| ==> Bad(ack, curr, report[k]))
    decreases |report|
  {
    if report != [] && !Bad(ack, curr, report[0]) {
      var rest := report[1..];
      TrustedIsPrefix(ack, curr, rest);
      var k := |Trusted(ack, curr, rest)|;
      assert report[..k + 1] == [report[0]] + rest[..k];
      assert forall i :: 0 < i <= k ==> report[i] == rest[i - 1];
      assert k < |rest| ==> report[k + 1] == rest[k];
    }
  }

  lemma OneEntry(loss: set<int>, ack: int, curr: int, r: Range)
    ensures NakOne(loss, ack, curr, r).1 <==> !Bad(ack, curr, r)
    ensures forall x :: x in NakOne(loss, ack, curr, r).0 <==>
                          x in loss || (!Bad(ack, curr, r) && x >= ack && r.lo <= x <= r.hi)
  {
  }

  /** For any report at all: the unacknowledged numbers of the entries before the first bad one
      are added, the peer is distrusted from the first bad one on, and nothing else changes. */
  lemma NakExact(s: Snd, report: seq<Range>)
    ensures var t := Nak(s, report);
      && t == s.(loss := t.loss, broken := t.broken)
      && (t.broken <==> s.broken || exists i :: 0 <= i < |report| && Bad(s.ack, s.curr, report[i]))
      && forall x :: x in t.loss <==> x in s.loss || (x >= s.ack && Covers(Trusted(s.ack, s.curr, report), x))
  {
    hide NakLoss;
    EntriesExact(s.loss, s.ack, s.curr, report);
  }

  lemma {:induction false} EntriesExact(loss: set<int>, ack: int, curr: int, report: seq<Range>)
    ensures NakLoss(loss, ack, curr, report).1 <==> forall i :: 0 <= i < |report| ==> !Bad(ack, curr, report[i])
    ensures forall x :: x in NakLoss(loss, ack, curr, report).0 <==>
                          x in loss || (x >= ack && Covers(Trusted(ack, curr, report), x))
    decreases |report|
  {
    if report != [] {
      var rest, r := report[1..], report[0];
      OneEntry(loss, ack, curr, r);
      hide NakOne;
      if !Bad(ack, curr, r) {
        EntriesExact(NakOne(loss, ack, curr, r).0, ack, curr, rest);
        CoversFirst(Trusted(ack, curr, report));
        assert Trusted(ack, curr, report)[1..] == Trusted(ack, curr, rest);
        assert forall i :: 0 < i < |report| ==> report[i] == rest[i - 1];
        assert forall i :: 0 <= i < |rest| ==> rest[i] == report[i + 1];
      }
    }
  }
}
