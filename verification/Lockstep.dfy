/** The two sides of a transfer decide from mirrored data, each alone: in every reachable state
    the message under way is the one its reader waits for, both sides stand at the same offset,
    and what has landed plus what is still to travel is what the transfer amounts to. */
module Lockstep {
  import opened Bytes
  import opened Sync

  /** Where a side stands once the steps that wait for nothing and say nothing are done. */
  function RestS(src: Payload, s: Sender): Sender {
    var s := if s.pc.SCompare? && s.off >= s.rsize then s.(pc := STail) else s;
    if s.pc in {SFull, STail} && s.off >= |src| then s.(pc := SDone) else s
  }

  function RestR(r: Receiver): Receiver {
    var r := if r.pc.RCompare? && r.off >= r.lsize then r.(pc := RTail) else r;
    if r.pc in {RFull, RTail} && r.off >= r.rsize then r.(pc := RDone) else r
  }

  /** The state once announcements under way have arrived and both sides have come to rest. */
  function Rest(src: Payload, t: Sys): Sys {
    var greetR := t.r.pc.RWaitInfo? && |t.toR| > 0 && t.toR[0].Info?;
    var greetS := t.s.pc.SWaitInfo? && |t.toS| > 0 && t.toS[0].Info?;
    t.(r := RestR(if greetR then RecvBegin(t.r, t.toR[0].size) else t.r),
       toR := if greetR then t.toR[1..] else t.toR,
       s := RestS(src, if greetS then SendBegin(src, t.s, t.toS[0].size, t.toS[0].ts) else t.s),
       toS := if greetS then t.toS[1..] else t.toS)
  }

  predicate Silent(t: Sys) {
    t.toR == [] && t.toS == []
  }

  /** Nothing yet said about the copy. */
  predicate Untouched(r: Receiver) {
    r.lsize == SizeOf(r.file) && r.off == 0
  }

  /** The part of the copy before the receiver's offset is settled, and lies inside the copy. */
  predicate Walking(c: Config, src: Payload, r: Receiver)
    requires c.chunk > 0
  {
    && r.pc !in {RHello, RWaitInfo, RServe, RBroken} && r.file.Some? && r.rsize == |src|
    && r.off <= |r.file.value| <= |src|
    && Settled(c, src, r.file.value, 0, r.off)
  }

  /** Where the receiver goes on after a chunk of the comparing loop. */
  predicate GoesOn(r: Receiver) {
    r.pc == RestR(r.(pc := RCompare)).pc
  }

  predicate Paired(c: Config, src: Payload, v: Sys)
    requires c.chunk > 0
  {
    var s, r, off := v.s, v.r, v.s.off;
    var f, n := Content(r.file), SizeOf(r.file);
    var l, m := ChunkAt(c, src, off), ChunkAt(c, f, off);
    match s.pc
    case SHello => r.pc.RServe? && Silent(v)
    case SWaitInfo =>
      r.pc.RServe? && v.toS == [] && |v.toR| == 1 && v.toR[0].Info? && v.toR[0].up && v.toR[0].size == |src|
    case SServe =>
      && v.toR == []
      && ((r.pc.RHello? && v.toS == []) || (r.pc.RWaitInfo? && v.toS == [Info(n, Stamp(r.file, r.ts), false)]))
    case SFull => r.pc.RFull? && Silent(v) && off == r.off == n
    case SFullAck =>
      && off < |src| && r.off == n
      && ((r.pc.RFull? && v.toS == [] && v.toR == [Chunk(off, l)] && r.off == off)
          || (v.toR == [] && v.toS == [Result(true)] && r.off == off + |l|
              && r.pc == if r.off < |src| then RFull else RDone))
    case SCompare => r.pc.RCompare? && Silent(v) && off == r.off < n == s.rsize == r.lsize
    case SCompareHash =>
      && off < n == s.rsize == r.lsize
      && ((r.pc.RCompare? && v.toS == [] && v.toR == [HashOf(off, |l|, c.hash(l))] && r.off == off)
          || (v.toR == [] && v.toS == [HashOf(off, |m|, c.hash(m))] &&
              if Same(c, l, m) then r.off == off + |l| && GoesOn(r)
              else r.pc.RCompareChunk? && r.off == off && r.lchunk == |m|))
    case SCompareAck =>
      && off < |src| && n == r.lsize
      && ((r.pc.RCompareChunk? && v.toS == [] && v.toR == [Chunk(off, l)] && r.off == off < n == s.rsize
           && s.rchunk == r.lchunk == |m| && !Same(c, l, m))
          || (v.toR == [] && v.toS == [Result(true)] && r.off == off + |l| && GoesOn(r)
              && n == if |l| > s.rchunk then s.rsize + (|l| - s.rchunk) else s.rsize))
    case STail => r.pc.RTail? && Silent(v) && off == r.off == n
    case STailAck =>
      && off < |src| && r.off == n
      && ((r.pc.RTail? && v.toS == [] && v.toR == [Chunk(off, l)] && r.off == off)
          || (v.toR == [] && v.toS == [Result(true)] && r.off == off + |l|
              && r.pc == if r.off < |src| then RTail else RDone))
    case SDone => r.pc.RDone? && Silent(v) && r.off == n == |src|
    case SRefused => false
    case SBroken => false
  }

  predicate InStep(c: Config, src: Payload, t: Sys)
    requires c.chunk > 0
  {
    var v := Rest(src, t);
    && Paired(c, src, v)
    && (t.r.pc in {RHello, RWaitInfo, RServe} ==> Untouched(t.r))
    && (t.s.pc in {SHello, SWaitInfo, SServe} ==> t.s.off == 0)
    && (v.s.pc !in {SHello, SWaitInfo, SServe} ==> Walking(c, src, v.r))
  }

  /** What has landed and what is still to travel make up the whole work, and the copy merges
      to the same file as the first one. */
  predicate OnCourse(c: Config, src: Payload, first: Option<Payload>, t: Sys)
    requires c.chunk > 0
  {
    var b, b0 := Base(src, t.r.file), Base(src, first);
    && Merge(c, src, b, 0) == Merge(c, src, b0, 0)
    && t.landed + Differing(c, src, b, 0) == Differing(c, src, b0, 0)
  }

  lemma FreshInStep(c: Config, src: Payload, file: Option<Payload>, ts: nat, up: bool, sent: seq<nat>, landed: seq<nat>)
    requires c.chunk > 0
    ensures InStep(c, src, Fresh(file, ts, up, sent, landed))
  {
  }

  // ---------------------------------------------------------------- the sender's steps

  /** Steps that say nothing and only meet an announcement, or nothing, lead to where the side
      already rests. */
  lemma SendQuietKeeps(c: Config, src: Payload, srcTs: nat, t: Sys)
    requires c.chunk > 0 && InStep(c, src, t) && Enabled(t, Sending)
    requires SendQuiet(src, t)
    ensures InStep(c, src, Step(c, src, srcTs, t, Sending))
  {
    hide Walking, ChunkAt, Settled, Paired, Untouched;
    InfoUnderWay(c, src, t);
    SendQuietRests(c, src, srcTs, t);
    hide Step, Rest;
  }

  /** Steps that only bring the sender to rest. */
  predicate SendQuiet(src: Payload, t: Sys) {
    t.s.pc.SWaitInfo? || (t.s.pc.SCompare? && t.s.off >= t.s.rsize) || (t.s.pc in {SFull, STail} && t.s.off >= |src|)
  }

  lemma SendQuietRests(c: Config, src: Payload, srcTs: nat, t: Sys)
    requires c.chunk > 0 && Enabled(t, Sending) && SendQuiet(src, t)
    requires t.s.pc.SWaitInfo? ==> t.toS[0].Info?
    ensures var t' := Step(c, src, srcTs, t, Sending);
      Rest(src, t') == Rest(src, t) && t'.r == t.r && t'.s.pc !in {SHello, SWaitInfo, SServe}
  {
    hide ChunkAt, RestR, RecvBegin;
  }

  lemma SendHelloKeeps(c: Config, src: Payload, srcTs: nat, t: Sys)
    requires c.chunk > 0 && InStep(c, src, t) && Enabled(t, Sending) && t.s.pc.SHello?
    ensures InStep(c, src, Step(c, src, srcTs, t, Sending))
  {
    hide ChunkAt, WriteAt, Offsets, Lands;
  }

  lemma SendServeKeeps(c: Config, src: Payload, srcTs: nat, t: Sys)
    requires c.chunk > 0 && InStep(c, src, t) && Enabled(t, Sending) && t.s.pc.SServe?
    ensures InStep(c, src, Step(c, src, srcTs, t, Sending))
  {
    NothingSettled(c, src);
    RequestUnderWay(c, src, t);
    hide ChunkAt, WriteAt, Offsets, Lands, Settled;
    var t' := Step(c, src, srcTs, t, Sending);
    assert t'.r == t.r && t'.s == SendBegin(src, t.s, SizeOf(t.r.file), Stamp(t.r.file, t.r.ts));
    assert t'.toS == [] && t'.toR == [Info(|src|, srcTs, false)];
  }

  lemma RequestUnderWay(c: Config, src: Payload, t: Sys)
    requires c.chunk > 0 && InStep(c, src, t) && Enabled(t, Sending) && t.s.pc.SServe?
    ensures t.r.pc.RWaitInfo? && t.toR == [] && t.toS == [Info(SizeOf(t.r.file), Stamp(t.r.file, t.r.ts), false)]
  {
    hide ChunkAt, Settled, Walking;
  }

  lemma NothingSettled(c: Config, src: Payload)
    requires c.chunk > 0
    ensures forall f: Payload :: Settled(c, src, f, 0, 0)
  {
    hide ChunkAt, Same;
  }

  lemma SendFullKeeps(c: Config, src: Payload, srcTs: nat, t: Sys)
    requires c.chunk > 0 && InStep(c, src, t) && Enabled(t, Sending) && t.s.pc.SFull? && t.s.off < |src|
    ensures InStep(c, src, Step(c, src, srcTs, t, Sending))
  {
    hide ChunkAt, WriteAt, Offsets, Lands, Walking;
    var t' := Step(c, src, srcTs, t, Sending);
    var v, said := Rest(src, t), t'.toR[|t.toR|..];
    assert v.r.pc.RFull? && Silent(v) && t.s.off == v.r.off;
    assert Rest(src, t') == v.(s := t'.s, toR := said, sent := t'.sent);
  }

  lemma SendFullAckKeeps(c: Config, src: Payload, srcTs: nat, t: Sys)
    requires c.chunk > 0 && InStep(c, src, t) && Enabled(t, Sending) && t.s.pc.SFullAck?
    ensures InStep(c, src, Step(c, src, srcTs, t, Sending))
  {
    hide ChunkAt, WriteAt, Offsets, Lands, Settled;
    AckUnderWay(c, src, t);
  }

  lemma SendCompareKeeps(c: Config, src: Payload, srcTs: nat, t: Sys)
    requires c.chunk > 0 && InStep(c, src, t) && Enabled(t, Sending) && t.s.pc.SCompare? && t.s.off < t.s.rsize
    ensures InStep(c, src, Step(c, src, srcTs, t, Sending))
  {
    hide ChunkAt, WriteAt, Offsets, Lands, Walking;
    var t' := Step(c, src, srcTs, t, Sending);
    var v, said := Rest(src, t), t'.toR[|t.toR|..];
    assert v.r.pc.RCompare? && Silent(v) && t.s.off == v.r.off;
    assert Rest(src, t') == v.(s := t'.s, toR := said, sent := t'.sent);
  }

  lemma SendMatchKeeps(c: Config, src: Payload, srcTs: nat, t: Sys)
    requires c.chunk > 0 && InStep(c, src, t) && Enabled(t, Sending) && t.s.pc.SCompareHash?
    requires Same(c, ChunkAt(c, src, t.s.off), ChunkAt(c, Content(t.r.file), t.s.off))
    ensures InStep(c, src, Step(c, src, srcTs, t, Sending))
  {
    hide ChunkAt, WriteAt, Offsets, Lands, Settled;
    HashComesBack(c, src, t);
  }

  lemma SendMissKeeps(c: Config, src: Payload, srcTs: nat, t: Sys)
    requires c.chunk > 0 && InStep(c, src, t) && Enabled(t, Sending) && t.s.pc.SCompareHash?
    requires !Same(c, ChunkAt(c, src, t.s.off), ChunkAt(c, Content(t.r.file), t.s.off))
    ensures InStep(c, src, Step(c, src, srcTs, t, Sending))
  {
    hide ChunkAt, WriteAt, Lands, Settled;
    HashComesBack(c, src, t);
  }

  lemma HashComesBack(c: Config, src: Payload, t: Sys)
    requires c.chunk > 0 && InStep(c, src, t) && Enabled(t, Sending) && t.s.pc.SCompareHash?
    ensures var m := ChunkAt(c, Content(t.r.file), t.s.off); t.toS == [HashOf(t.s.off, |m|, c.hash(m))] && t.toR == []
    ensures Walking(c, src, RestR(t.r)) && !t.r.pc.RWaitInfo?
  {
    hide ChunkAt, Settled;
  }

  lemma SendCompareAckKeeps(c: Config, src: Payload, srcTs: nat, t: Sys)
    requires c.chunk > 0 && InStep(c, src, t) && Enabled(t, Sending) && t.s.pc.SCompareAck?
    ensures InStep(c, src, Step(c, src, srcTs, t, Sending))
  {
    hide ChunkAt, WriteAt, Offsets, Lands, Settled;
    AckUnderWay(c, src, t);
  }

  lemma SendTailKeeps(c: Config, src: Payload, srcTs: nat, t: Sys)
    requires c.chunk > 0 && InStep(c, src, t) && Enabled(t, Sending) && t.s.pc.STail? && t.s.off < |src|
    ensures InStep(c, src, Step(c, src, srcTs, t, Sending))
  {
    hide ChunkAt, WriteAt, Offsets, Lands, Walking;
    var t' := Step(c, src, srcTs, t, Sending);
    var v, said := Rest(src, t), t'.toR[|t.toR|..];
    assert v.r.pc.RTail? && Silent(v) && t.s.off == v.r.off;
    assert Rest(src, t') == v.(s := t'.s, toR := said, sent := t'.sent);
  }

  lemma SendTailAckKeeps(c: Config, src: Payload, srcTs: nat, t: Sys)
    requires c.chunk > 0 && InStep(c, src, t) && Enabled(t, Sending) && t.s.pc.STailAck?
    ensures InStep(c, src, Step(c, src, srcTs, t, Sending))
  {
    hide ChunkAt, WriteAt, Offsets, Lands, Settled;
    AckUnderWay(c, src, t);
  }

  lemma AckUnderWay(c: Config, src: Payload, t: Sys)
    requires c.chunk > 0 && InStep(c, src, t) && Enabled(t, Sending) && t.s.pc in {SFullAck, SCompareAck, STailAck}
    ensures t.toS == [Result(true)] && t.toR == [] && !t.r.pc.RWaitInfo? && Walking(c, src, RestR(t.r))
    ensures t.s.off < |src| && RestR(t.r).off == t.s.off + |ChunkAt(c, src, t.s.off)|
  {
    hide ChunkAt, Settled;
  }

  lemma SendingKeeps(c: Config, src: Payload, srcTs: nat, t: Sys)
    requires c.chunk > 0 && InStep(c, src, t) && Enabled(t, Sending)
    ensures InStep(c, src, Step(c, src, srcTs, t, Sending))
  {
    hide InStep, Step;
    match t.s.pc
    case SHello => SendHelloKeeps(c, src, srcTs, t);
    case SServe => SendServeKeeps(c, src, srcTs, t);
    case SFullAck => SendFullAckKeeps(c, src, srcTs, t);
    case SCompareHash =>
      if Same(c, ChunkAt(c, src, t.s.off), ChunkAt(c, Content(t.r.file), t.s.off)) {
        SendMatchKeeps(c, src, srcTs, t);
      } else {
        SendMissKeeps(c, src, srcTs, t);
      }
    case SCompareAck => SendCompareAckKeeps(c, src, srcTs, t);
    case STailAck => SendTailAckKeeps(c, src, srcTs, t);
    case SWaitInfo => SendQuietKeeps(c, src, srcTs, t);
    case SFull => if t.s.off < |src| { SendFullKeeps(c, src, srcTs, t); } else { SendQuietKeeps(c, src, srcTs, t); }
    case SCompare =>
      if t.s.off < t.s.rsize { SendCompareKeeps(c, src, srcTs, t); } else { SendQuietKeeps(c, src, srcTs, t); }
    case STail => if t.s.off < |src| { SendTailKeeps(c, src, srcTs, t); } else { SendQuietKeeps(c, src, srcTs, t); }
    case _ =>
  }

  // ---------------------------------------------------------------- the receiver's steps

  /** A chunk that differs, written where the receiver stands. */
  lemma LandKeeps(c: Config, src: Payload, r: Receiver, landed: seq<nat>)
    requires c.chunk > 0 && Walking(c, src, r) && r.off < |src|
    requires !Same(c, ChunkAt(c, src, r.off), ChunkAt(c, Content(r.file), r.off))
    ensures var l := ChunkAt(c, src, r.off); var g := Land(r, r.off, l).file;
      && g.Some? && SizeOf(g) == (if r.off + |l| <= SizeOf(r.file) then SizeOf(r.file) else r.off + |l|)
      && r.off + |l| <= SizeOf(g) <= |src|
      && Settled(c, src, g.value, 0, r.off + |l|)
      && Merge(c, src, Base(src, g), 0) == Merge(c, src, Base(src, r.file), 0)
      && [r.off] + Differing(c, src, Base(src, g), 0) == Differing(c, src, Base(src, r.file), 0)
  {
    hide Merge, Differing, Settled, WriteAt, ChunkAt;
    Landing(c, src, r.file.value, 0, r.off);
    WriteShape(c, src, r.file.value, r.off);
  }

  /** A receiver waiting for a chunk is sent the one at its offset, and only one that differs. */
  lemma ChunkUnderWay(c: Config, src: Payload, t: Sys)
    requires c.chunk > 0 && InStep(c, src, t) && Enabled(t, Receiving)
    requires t.r.pc in {RFull, RCompareChunk, RTail} && RecvWaits(t.r)
    ensures t.toR == [Chunk(t.r.off, ChunkAt(c, src, t.r.off))] && Walking(c, src, t.r) && t.r.off < |src|
    ensures !Same(c, ChunkAt(c, src, t.r.off), ChunkAt(c, Content(t.r.file), t.r.off))
    ensures t.toS == [] && t.s.pc in {SFullAck, SCompareAck, STailAck} && t.s.off == t.r.off
  {
    hide ChunkAt, Settled;
  }

  /** Landing keeps the course. */
  lemma LandOnCourse(c: Config, src: Payload, srcTs: nat, first: Option<Payload>, t: Sys)
    requires c.chunk > 0 && InStep(c, src, t) && OnCourse(c, src, first, t) && Enabled(t, Receiving)
    requires t.r.pc in {RFull, RCompareChunk, RTail} && RecvWaits(t.r)
    ensures OnCourse(c, src, first, Step(c, src, srcTs, t, Receiving))
  {
    hide InStep, ChunkAt, Settled, Merge, Differing, Same, Walking, Base, WriteAt;
    ChunkUnderWay(c, src, t);
    LandKeeps(c, src, t.r, t.landed);
    var t' := Step(c, src, srcTs, t, Receiving);
    var d := Differing(c, src, Base(src, t'.r.file), 0);
    assert t.landed + [t.r.off] + d == t.landed + ([t.r.off] + d);
  }

  lemma ChunkSize(c: Config, file: Payload, off: nat)
    ensures |ChunkAt(c, file, off)| ==
      if off >= |file| then 0 else if off + c.chunk <= |file| then c.chunk else |file| - off
  {
  }

  lemma RecvQuietKeeps(c: Config, src: Payload, srcTs: nat, t: Sys)
    requires c.chunk > 0 && InStep(c, src, t) && Enabled(t, Receiving)
    requires RecvQuiet(t)
    ensures InStep(c, src, Step(c, src, srcTs, t, Receiving))
  {
    hide Walking, ChunkAt, Settled, Offsets, Paired, Untouched;
    InfoUnderWay(c, src, t);
    RecvQuietRests(c, src, srcTs, t);
    hide Step, Rest;
  }

  /** Steps that only bring the receiver to rest. */
  predicate RecvQuiet(t: Sys) {
    t.r.pc.RWaitInfo? || (t.r.pc in {RFull, RCompare, RTail} && !RecvWaits(t.r))
  }

  lemma RecvQuietRests(c: Config, src: Payload, srcTs: nat, t: Sys)
    requires c.chunk > 0 && Enabled(t, Receiving) && RecvQuiet(t)
    requires t.r.pc.RWaitInfo? ==> t.toR[0].Info?
    ensures var t' := Step(c, src, srcTs, t, Receiving);
      Rest(src, t') == Rest(src, t) && t'.s == t.s && t'.r.pc !in {RHello, RWaitInfo, RServe}
  {
    hide ChunkAt, Offsets;
  }

  lemma InfoUnderWay(c: Config, src: Payload, t: Sys)
    requires c.chunk > 0 && InStep(c, src, t)
    ensures t.r.pc in {RWaitInfo, RServe} && |t.toR| > 0 ==> t.toR[0].Info?
    ensures t.s.pc.SWaitInfo? && |t.toS| > 0 ==> t.toS[0].Info?
  {
    hide ChunkAt, Settled;
  }

  lemma RecvHelloKeeps(c: Config, src: Payload, srcTs: nat, t: Sys)
    requires c.chunk > 0 && InStep(c, src, t) && Enabled(t, Receiving) && t.r.pc.RHello?
    ensures InStep(c, src, Step(c, src, srcTs, t, Receiving))
  {
    hide ChunkAt, WriteAt, Merge, Differing, Offsets;
  }

  lemma RecvServeKeeps(c: Config, src: Payload, srcTs: nat, t: Sys)
    requires c.chunk > 0 && InStep(c, src, t) && Enabled(t, Receiving) && t.r.pc.RServe?
    ensures InStep(c, src, Step(c, src, srcTs, t, Receiving))
  {
    hide ChunkAt, WriteAt, Merge, Differing, Offsets;
  }

  lemma RecvFullKeeps(c: Config, src: Payload, srcTs: nat, t: Sys)
    requires c.chunk > 0 && InStep(c, src, t) && Enabled(t, Receiving) && t.r.pc.RFull? && RecvWaits(t.r)
    ensures InStep(c, src, Step(c, src, srcTs, t, Receiving))
  {
    hide ChunkAt, WriteAt, Merge, Differing, Offsets, Settled, Same;
    ChunkUnderWay(c, src, t);
    LandKeeps(c, src, t.r, t.landed);
  }

  lemma RecvCompareChunkKeeps(c: Config, src: Payload, srcTs: nat, t: Sys)
    requires c.chunk > 0 && InStep(c, src, t) && Enabled(t, Receiving) && t.r.pc.RCompareChunk? && RecvWaits(t.r)
    ensures InStep(c, src, Step(c, src, srcTs, t, Receiving))
  {
    hide ChunkAt, WriteAt, Merge, Differing, Offsets, Settled, Same;
    ChunkUnderWay(c, src, t);
    LandKeeps(c, src, t.r, t.landed);
    ChunkSize(c, src, t.r.off);
    ChunkSize(c, Content(t.r.file), t.r.off);
  }

  lemma RecvTailKeeps(c: Config, src: Payload, srcTs: nat, t: Sys)
    requires c.chunk > 0 && InStep(c, src, t) && Enabled(t, Receiving) && t.r.pc.RTail? && RecvWaits(t.r)
    ensures InStep(c, src, Step(c, src, srcTs, t, Receiving))
  {
    hide ChunkAt, WriteAt, Merge, Differing, Offsets, Settled, Same;
    ChunkUnderWay(c, src, t);
    LandKeeps(c, src, t.r, t.landed);
  }

  lemma RecvMatchKeeps(c: Config, src: Payload, srcTs: nat, t: Sys)
    requires c.chunk > 0 && InStep(c, src, t) && Enabled(t, Receiving) && t.r.pc.RCompare? && RecvWaits(t.r)
    requires Same(c, ChunkAt(c, src, t.r.off), ChunkAt(c, Content(t.r.file), t.r.off))
    ensures InStep(c, src, Step(c, src, srcTs, t, Receiving))
  {
    hide ChunkAt, WriteAt, Settled;
    HashUnderWay(c, src, t);
    SettledFurther(c, src, Content(t.r.file), 0, t.r.off);
  }

  lemma RecvMissKeeps(c: Config, src: Payload, srcTs: nat, t: Sys)
    requires c.chunk > 0 && InStep(c, src, t) && Enabled(t, Receiving) && t.r.pc.RCompare? && RecvWaits(t.r)
    requires !Same(c, ChunkAt(c, src, t.r.off), ChunkAt(c, Content(t.r.file), t.r.off))
    ensures InStep(c, src, Step(c, src, srcTs, t, Receiving))
  {
    hide ChunkAt, WriteAt, Settled;
    HashUnderWay(c, src, t);
  }

  lemma HashUnderWay(c: Config, src: Payload, t: Sys)
    requires c.chunk > 0 && InStep(c, src, t) && Enabled(t, Receiving) && t.r.pc.RCompare? && RecvWaits(t.r)
    ensures var l := ChunkAt(c, src, t.r.off);
      && t.toR == [HashOf(t.r.off, |l|, c.hash(l))] && t.toS == [] && Walking(c, src, t.r) && t.r.off < |src|
      && t.s.pc.SCompareHash? && t.s.off == t.r.off < SizeOf(t.r.file) == t.s.rsize == t.r.lsize
  {
    hide ChunkAt, Settled;
  }

  /** No write has failed. */
  lemma StreamsGood(c: Config, src: Payload, t: Sys)
    requires c.chunk > 0 && InStep(c, src, t)
    ensures t.r.pc !in {RUnwritten, RReadless}
  {
    hide ChunkAt, Settled;
  }

  lemma ReceivingKeeps(c: Config, src: Payload, srcTs: nat, t: Sys)
    requires c.chunk > 0 && InStep(c, src, t) && Enabled(t, Receiving)
    ensures InStep(c, src, Step(c, src, srcTs, t, Receiving))
  {
    hide InStep, Step;
    StreamsGood(c, src, t);
    match t.r.pc
    case RHello => RecvHelloKeeps(c, src, srcTs, t);
    case RWaitInfo => RecvQuietKeeps(c, src, srcTs, t);
    case RServe => RecvServeKeeps(c, src, srcTs, t);
    case RFull => if RecvWaits(t.r) { RecvFullKeeps(c, src, srcTs, t); } else { RecvQuietKeeps(c, src, srcTs, t); }
    case RTail => if RecvWaits(t.r) { RecvTailKeeps(c, src, srcTs, t); } else { RecvQuietKeeps(c, src, srcTs, t); }
    case RCompareChunk => RecvCompareChunkKeeps(c, src, srcTs, t);
    case RCompare =>
      if !RecvWaits(t.r) {
        RecvQuietKeeps(c, src, srcTs, t);
      } else if Same(c, ChunkAt(c, src, t.r.off), ChunkAt(c, Content(t.r.file), t.r.off)) {
        RecvMatchKeeps(c, src, srcTs, t);
      } else {
        RecvMissKeeps(c, src, srcTs, t);
      }
    case _ =>
  }

  // ---------------------------------------------------------------- whole runs

  predicate Sound(c: Config, src: Payload, first: Option<Payload>, t: Sys)
    requires c.chunk > 0
  {
    InStep(c, src, t) && OnCourse(c, src, first, t)
  }

  lemma StepKeeps(c: Config, src: Payload, srcTs: nat, first: Option<Payload>, t: Sys, e: Event)
    requires c.chunk > 0 && Sound(c, src, first, t) && Enabled(t, e)
    ensures Sound(c, src, first, Step(c, src, srcTs, t, e))
  {
    match e
    case Sending =>
      hide InStep;
      SendingKeeps(c, src, srcTs, t);
    case Receiving =>
      ReceivingKeeps(c, src, srcTs, t);
      hide Walking, Paired, Merge, Differing;
      if t.r.pc in {RFull, RCompareChunk, RTail} && RecvWaits(t.r) {
        LandOnCourse(c, src, srcTs, first, t);
      } else {
        BaseStays(c, src, srcTs, t);
      }
    case Restarting(ts, up) =>
      hide InStep;
      FreshInStep(c, src, t.r.file, ts, up, t.sent, t.landed);
  }

  /** A receiver that truncates its copy loses nothing it could have built on. */
  lemma BaseStays(c: Config, src: Payload, srcTs: nat, t: Sys)
    requires c.chunk > 0 && InStep(c, src, t) && Enabled(t, Receiving)
    requires !(t.r.pc in {RFull, RCompareChunk, RTail} && RecvWaits(t.r))
    ensures var t' := Step(c, src, srcTs, t, Receiving);
      Base(src, t'.r.file) == Base(src, t.r.file) && t'.landed == t.landed
  {
    hide ChunkAt, Settled, WriteAt;
    assert SizeOf(t.r.file) == 0 ==> Content(t.r.file) == [];
  }

  predicate IsRun(c: Config, src: Payload, srcTs: nat, t: Sys, es: seq<Event>)
    decreases |es|
  {
    es == [] || (Enabled(t, es[0]) && IsRun(c, src, srcTs, Step(c, src, srcTs, t, es[0]), es[1..]))
  }

  function After(c: Config, src: Payload, srcTs: nat, t: Sys, es: seq<Event>): Sys
    requires IsRun(c, src, srcTs, t, es)
    decreases |es|
  {
    if es == [] then t else After(c, src, srcTs, Step(c, src, srcTs, t, es[0]), es[1..])
  }

  lemma {:induction false} RunKeeps(c: Config, src: Payload, srcTs: nat, first: Option<Payload>, t: Sys, es: seq<Event>)
    requires c.chunk > 0 && Sound(c, src, first, t) && IsRun(c, src, srcTs, t, es)
    ensures Sound(c, src, first, After(c, src, srcTs, t, es))
    decreases |es|
  {
    hide Sound, Step;
    if es != [] {
      StepKeeps(c, src, srcTs, first, t, es[0]);
      RunKeeps(c, src, srcTs, first, Step(c, src, srcTs, t, es[0]), es[1..]);
    }
  }

  // ---------------------------------------------------------------- how a run ends

  predicate Done(t: Sys) {
    t.s.pc.SDone? && t.r.pc.RDone?
  }

  /** Some chunk of the old copy has the size and hash of the source's chunk but not its bytes. */
  predicate Deceived(c: Config, src: Payload, was: Payload, off: nat)
    requires c.chunk > 0
    decreases |src| - off
  {
    off < |src| &&
    var l, r := ChunkAt(c, src, off), ChunkAt(c, was, off);
    (Same(c, l, r) && l != r) || Deceived(c, src, was, off + |l|)
  }

  lemma {:induction false} MergeLength(c: Config, src: Payload, was: Payload, off: nat)
    requires c.chunk > 0 && off <= |src|
    ensures |Merge(c, src, was, off)| == |src| - off
    decreases |src| - off
  {
    hide ChunkAt;
    if off < |src| {
      MergeLength(c, src, was, off + |ChunkAt(c, src, off)|);
    }
  }

  /** A merge is the source unless a hash deceives. */
  lemma {:induction false} MergeIsSource(c: Config, src: Payload, was: Payload, off: nat)
    requires c.chunk > 0 && off <= |src|
    ensures Merge(c, src, was, off) == src[off..] <==> !Deceived(c, src, was, off)
    decreases |src| - off
  {
    hide Merge, ChunkAt, Same;
    MergeLength(c, src, was, off);
    if off < |src| {
      var l, r := ChunkAt(c, src, off), ChunkAt(c, was, off);
      var q := off + |l|;
      MergeIsSource(c, src, was, q);
      OneChunk(c, src, was, off);
      SourceSplits(c, src, off);
      if Same(c, l, r) {
        SameSize(c, l, r);
      }
      Splits(if Same(c, l, r) then r else l, Merge(c, src, was, q), l, src[q..]);
    }
  }

  lemma SameSize(c: Config, l: Payload, r: Payload)
    requires Same(c, l, r)
    ensures |l| == |r|
  {
  }

  lemma SourceSplits(c: Config, src: Payload, off: nat)
    requires c.chunk > 0 && off < |src|
    ensures src[off..] == ChunkAt(c, src, off) + src[off + |ChunkAt(c, src, off)|..]
  {
  }

  lemma Splits(a: Payload, b: Payload, x: Payload, y: Payload)
    requires |a| == |x|
    ensures a + b == x + y <==> a == x && b == y
  {
    if a + b == x + y {
      assert a == (a + b)[..|a|] && x == (x + y)[..|a|];
      assert b == (a + b)[|a|..] && y == (x + y)[|a|..];
    }
  }

  /** A copy settled to its end merges to itself and needs nothing. */
  lemma {:induction false} SettledIsMerged(c: Config, src: Payload, f: Payload, p: nat)
    requires c.chunk > 0 && |f| == |src| && p <= |src| && Settled(c, src, f, p, |src|)
    ensures Merge(c, src, f, p) == f[p..] && Differing(c, src, f, p) == []
    decreases |src| - p
  {
    if p < |src| {
      var q := p + |ChunkAt(c, src, p)|;
      SettledIsMerged(c, src, f, q);
      OneChunk(c, src, f, p);
      ChunkAndRest(c, f, p);
      hide ChunkAt, Settled, Merge, Differing;
      assert |ChunkAt(c, f, p)| == q - p;
    }
  }

  lemma ChunkAndRest(c: Config, f: Payload, p: nat)
    requires p <= |f|
    ensures var l := ChunkAt(c, f, p); p + |l| <= |f| && f[p..] == l + f[p + |l|..]
  {
  }

  /** Whatever the source, the copy found, the direction and the restarts on the way: a run
      that ends leaves the merge, which is the source unless a hash deceives, and has landed
      exactly the chunks whose size or hash differed, each once, in order. */
  lemma TransferCorrect(c: Config, src: Payload, srcTs: nat, first: Option<Payload>, ts: nat, up: bool, es: seq<Event>)
    requires c.chunk > 0
    requires var t0 := Fresh(first, ts, up, [], []); IsRun(c, src, srcTs, t0, es) && Done(After(c, src, srcTs, t0, es))
    ensures var t := After(c, src, srcTs, Fresh(first, ts, up, [], []), es); var was := Base(src, first);
      && t.r.file == Some(Merge(c, src, was, 0)) && SizeOf(t.r.file) == |src|
      && Settled(c, src, Content(t.r.file), 0, |src|)
      && (Content(t.r.file) == src <==> !Deceived(c, src, was, 0))
      && t.landed == Differing(c, src, was, 0)
      && Silent(t)
  {
    hide Merge, Differing, Settled, Deceived, InStep;
    var t0 := Fresh(first, ts, up, [], []);
    FreshSound(c, src, first, ts, up);
    RunKeeps(c, src, srcTs, first, t0, es);
    var t := After(c, src, srcTs, t0, es);
    DoneIsSettled(c, src, t);
    SettledIsMerged(c, src, t.r.file.value, 0);
    MergeIsSource(c, src, Base(src, first), 0);
    assert src[0..] == src && t.r.file.value[0..] == t.r.file.value;
  }

  lemma FreshSound(c: Config, src: Payload, first: Option<Payload>, ts: nat, up: bool)
    requires c.chunk > 0
    ensures Sound(c, src, first, Fresh(first, ts, up, [], []))
  {
    hide InStep, Merge, Differing;
    FreshInStep(c, src, first, ts, up, [], []);
  }

  lemma DoneIsSettled(c: Config, src: Payload, t: Sys)
    requires c.chunk > 0 && InStep(c, src, t) && Done(t)
    ensures Walking(c, src, t.r) && t.r.off == SizeOf(t.r.file) == |src| && Silent(t)
  {
    hide Settled, ChunkAt;
  }

  /** Nobody waits forever and nobody is ever sent what it does not expect. */
  lemma NeverStuck(c: Config, src: Payload, first: Option<Payload>, t: Sys)
    requires c.chunk > 0 && Sound(c, src, first, t)
    ensures t.s.pc !in {SRefused, SBroken} && !t.r.pc.RBroken?
    ensures Done(t) || Enabled(t, Sending) || Enabled(t, Receiving)
  {
    hide Settled, ChunkAt, OnCourse;
  }

  function Left(src: Payload, off: nat): nat {
    if off < |src| then 8 * (|src| - off) else 0
  }

  /** What a pair has left to do; it bounds the steps to the end. */
  function Work(src: Payload, t: Sys): nat {
    Left(src, t.s.off) + Left(src, t.r.off)
    + (match t.s.pc
       case SHello => 7 case SWaitInfo | SServe => 6
       case SFull | SCompare => 5 case SFullAck | SCompareHash => 4 case SCompareAck => 3
       case STail => 2 case STailAck => 1 case _ => 0)
    + (match t.r.pc
       case RHello => 5 case RWaitInfo | RServe => 4
       case RFull | RCompare => 3 case RCompareChunk => 2
       case RTail => 1 case _ => 0)
  }

  lemma SendingWorks(c: Config, src: Payload, srcTs: nat, t: Sys)
    requires c.chunk > 0 && InStep(c, src, t) && Enabled(t, Sending)
    ensures Work(src, Step(c, src, srcTs, t, Sending)) < Work(src, t)
  {
    hide Settled, ChunkAt, Offsets, Rest, Paired, Walking;
    SendingKeeps(c, src, srcTs, t);
    if t.s.pc.SCompareHash? {
      HashComesBack(c, src, t);
      assert t.s.off < |src| by {
        SendInside(c, src, t);
      }
    } else if t.s.pc in {SFullAck, SCompareAck, STailAck} {
      AckUnderWay(c, src, t);
    }
  }

  lemma SendInside(c: Config, src: Payload, t: Sys)
    requires c.chunk > 0 && InStep(c, src, t) && t.s.pc.SCompareHash?
    ensures t.s.off < |src|
  {
    hide Settled, ChunkAt;
  }

  lemma ReceivingWorks(c: Config, src: Payload, srcTs: nat, t: Sys)
    requires c.chunk > 0 && InStep(c, src, t) && Enabled(t, Receiving)
    ensures Work(src, Step(c, src, srcTs, t, Receiving)) < Work(src, t)
  {
    hide Settled, ChunkAt, Offsets, WriteAt, Rest, Paired, Walking;
    ReceivingKeeps(c, src, srcTs, t);
    StreamsGood(c, src, t);
    if t.r.pc in {RFull, RCompareChunk, RTail} && RecvWaits(t.r) {
      ChunkUnderWay(c, src, t);
    } else if t.r.pc.RCompare? && RecvWaits(t.r) {
      HashUnderWay(c, src, t);
    }
  }

  predicate IsRestart(e: Event) {
    e.Restarting?
  }

  function Restarts(es: seq<Event>): nat {
    if es == [] then 0 else (if IsRestart(es[0]) then 1 else 0) + Restarts(es[1..])
  }

  /** An attempt that is not interrupted ends, complete, within the work that was left. */
  lemma {:induction false} AttemptEnds(c: Config, src: Payload, srcTs: nat, first: Option<Payload>, t: Sys,
                                       es: seq<Event>)
    requires c.chunk > 0 && Sound(c, src, first, t) && IsRun(c, src, srcTs, t, es) && Restarts(es) == 0
    ensures |es| <= Work(src, t)
    ensures var t' := After(c, src, srcTs, t, es);
      !Enabled(t', Sending) && !Enabled(t', Receiving) ==> Done(t')
    decreases |es|
  {
    hide InStep, OnCourse, Step, Work, Enabled;
    if es == [] {
      NeverStuck(c, src, first, t);
    } else {
      StepKeeps(c, src, srcTs, first, t, es[0]);
      if es[0].Sending? {
        SendingWorks(c, src, srcTs, t);
      } else {
        ReceivingWorks(c, src, srcTs, t);
      }
      AttemptEnds(c, src, srcTs, first, Step(c, src, srcTs, t, es[0]), es[1..]);
    }
  }

  // ---------------------------------------------------------------- no chunk lands twice

  predicate Increasing(s: seq<nat>) {
    forall i, j :: 0 <= i < j < |s| ==> s[i] < s[j]
  }

  lemma {:induction false} DifferingIncreases(c: Config, src: Payload, was: Payload, off: nat)
    requires c.chunk > 0
    ensures Increasing(Differing(c, src, was, off))
    ensures forall i :: 0 <= i < |Differing(c, src, was, off)| ==> off <= Differing(c, src, was, off)[i] < |src|
    decreases |src| - off
  {
    hide Merge, ChunkAt, Same, Settled, Differing;
    if off < |src| {
      DifferingIncreases(c, src, was, off + |ChunkAt(c, src, off)|);
      OneChunk(c, src, was, off);
    } else {
      NothingLeft(c, src, was, off);
    }
  }

  lemma NothingLeft(c: Config, src: Payload, was: Payload, off: nat)
    requires c.chunk > 0 && off >= |src|
    ensures Differing(c, src, was, off) == []
  {
  }

  /** In every reachable state, however many restarts led to it, no offset has landed twice,
      and a chunk under way is the source's own, for an offset that has not landed yet. */
  lemma NothingTwice(c: Config, src: Payload, srcTs: nat, first: Option<Payload>, t: Sys, i: nat)
    requires c.chunk > 0 && Sound(c, src, first, t)
    ensures Increasing(t.landed)
    ensures i < |t.toR| && t.toR[i].Chunk? ==>
      t.toR[i].data == ChunkAt(c, src, t.toR[i].off) && t.toR[i].off !in t.landed
  {
    hide Merge, Settled, ChunkAt, Differing, Same, WriteAt, Base, Step, InStep;
    var all := Differing(c, src, Base(src, first), 0);
    DifferingIncreases(c, src, Base(src, first), 0);
    assert forall k :: 0 <= k < |t.landed| ==> t.landed[k] == all[k];
    if i < |t.toR| && t.toR[i].Chunk? {
      ChunksArePending(c, src, t, i);
      var n := |t.landed|;
      assert all[n] == Differing(c, src, Base(src, t.r.file), 0)[0] == t.toR[i].off;
    }
  }

  /** A chunk under way is the first of those still needed. */
  lemma ChunksArePending(c: Config, src: Payload, t: Sys, i: nat)
    requires c.chunk > 0 && InStep(c, src, t) && i < |t.toR| && t.toR[i].Chunk?
    ensures t.toR[i].data == ChunkAt(c, src, t.toR[i].off)
    ensures var d := Differing(c, src, Base(src, t.r.file), 0); |d| > 0 && d[0] == t.toR[i].off
  {
    hide Merge, Settled, ChunkAt, Differing, WriteAt;
    var r := Rest(src, t).r;
    assert Base(src, r.file) == Base(src, t.r.file) by {
      assert SizeOf(t.r.file) == 0 ==> Content(t.r.file) == [];
    }
    LandKeeps(c, src, r, t.landed);
  }

  lemma {:induction false} OffsetsConcat(a: seq<Msg>, b: seq<Msg>)
    ensures Offsets(a + b) == Offsets(a) + Offsets(b)
  {
    if a == [] {
      assert a + b == b;
    } else {
      assert (a + b)[1..] == a[1..] + b;
      OffsetsConcat(a[1..], b);
    }
  }

  lemma OneUnderWay(c: Config, src: Payload, t: Sys)
    requires c.chunk > 0 && InStep(c, src, t)
    ensures |Offsets(t.toR)| <= 1
  {
    assert |t.toR| <= 1 || (|t.toR| == 2 && t.toR[0].Info?) by {
      hide Settled, ChunkAt, WriteAt, Offsets;
    }
    hide InStep;
    AtMostOne(if |t.toR| <= 1 then t.toR else t.toR[1..]);
  }

  lemma AtMostOne(ms: seq<Msg>)
    requires |ms| <= 1
    ensures |Offsets(ms)| <= 1
  {
  }

  /** Chunks sent are chunks landed, the one under way, and at most one lost per restart. */
  lemma SentGrows(c: Config, src: Payload, srcTs: nat, t: Sys, e: Event, lost: nat)
    requires c.chunk > 0 && InStep(c, src, t) && Enabled(t, e)
    requires |t.sent| <= |t.landed| + |Offsets(t.toR)| + lost
    ensures var t' := Step(c, src, srcTs, t, e);
      |t'.sent| <= |t'.landed| + |Offsets(t'.toR)| + lost + if e.Restarting? then 1 else 0
  {
    hide InStep, SendRead, SendAct, RecvAct, RecvRead, Offsets;
    var t' := Step(c, src, srcTs, t, e);
    match e
    case Sending =>
      OffsetsConcat(t.toR, t'.toR[|t.toR|..]);
    case Receiving =>
      ReceivedOffsets(c, src, srcTs, t);
    case Restarting(_, _) =>
      OneUnderWay(c, src, t);
  }

  lemma ReceivedOffsets(c: Config, src: Payload, srcTs: nat, t: Sys)
    requires c.chunk > 0 && InStep(c, src, t) && Enabled(t, Receiving)
    ensures var t' := Step(c, src, srcTs, t, Receiving);
      t'.sent == t.sent && t'.landed + Offsets(t'.toR) == t.landed + Offsets(t.toR)
  {
    hide InStep, RecvAct, RecvRead, Walking, ChunkAt, Same;
    InfoUnderWay(c, src, t);
    StreamsGood(c, src, t);
    if t.r.pc in {RFull, RCompareChunk, RTail} && RecvWaits(t.r) {
      ChunkUnderWay(c, src, t);
    } else if t.r.pc.RCompare? && RecvWaits(t.r) {
      HashUnderWay(c, src, t);
    }
  }

  lemma {:induction false} SentIsLanded(c: Config, src: Payload, srcTs: nat, first: Option<Payload>, t: Sys,
                                        es: seq<Event>, lost: nat)
    requires c.chunk > 0 && Sound(c, src, first, t) && IsRun(c, src, srcTs, t, es)
    requires |t.sent| <= |t.landed| + |Offsets(t.toR)| + lost
    ensures var t' := After(c, src, srcTs, t, es);
      |t'.sent| <= |t'.landed| + |Offsets(t'.toR)| + lost + Restarts(es)
    decreases |es|
  {
    hide InStep, OnCourse, Step, Enabled, Offsets;
    if es != [] {
      StepKeeps(c, src, srcTs, first, t, es[0]);
      SentGrows(c, src, srcTs, t, es[0], lost);
      var lost' := lost + if es[0].Restarting? then 1 else 0;
      SentIsLanded(c, src, srcTs, first, Step(c, src, srcTs, t, es[0]), es[1..], lost');
    }
  }

  // ---------------------------------------------------------------- in bytes

  /** Up to `n` bytes of a file from `o` on. */
  function Part(file: Payload, o: nat, n: nat): Payload {
    if o >= |file| then [] else if |file| - o <= n then file[o..] else file[o..][..n]
  }

  /** The chunk at `o` has to travel: it differs from the copy's in size or hash. */
  predicate Needed(c: Config, src: Payload, was: Payload, o: nat) {
    var l, r := Part(src, o, c.chunk), Part(was, o, c.chunk);
    |l| != |r| || c.hash(l) != c.hash(r)
  }

  /** Chunks start at the multiples of the chunk size. */
  predicate Starts(c: Config, src: Payload, o: nat)
    requires c.chunk > 0
  {
    o < |src| && o % c.chunk == 0
  }

  lemma NextMultiple(n: nat, a: nat, b: nat)
    requires n > 0 && a % n == 0
    ensures (a + n) % n == 0
    ensures a < b && b % n == 0 ==> a + n <= b
  {
    var p, q := a / n, b / n;
    assert a == n * p;
    assert b == n * q + b % n;
    MultipleOf(n, p + 1);
    assert n * (p + 1) == a + n;
    if a < b && b % n == 0 {
      Steeper(n, p, q);
    }
  }

  lemma MultipleOf(n: nat, p: nat)
    requires n > 0
    ensures n * p % n == 0
  {
    var d := p - n * p / n;
    assert n * d == n * p % n;
    assert d >= 1 ==> n * d >= n;
  }

  lemma Steeper(n: nat, p: nat, q: nat)
    requires n * p < n * q
    ensures n * (p + 1) <= n * q
  {
    assert q <= p ==> n * q <= n * p;
    assert q >= p + 1 ==> n * q >= n * (p + 1);
  }

  lemma FirstNeeded(c: Config, src: Payload, was: Payload, o: nat)
    requires c.chunk > 0 && o < |src|
    ensures var l, q, later := Part(src, o, c.chunk), o + |ChunkAt(c, src, o)|, Differing(c, src, was, o);
      && q == (if o + c.chunk <= |src| then o + c.chunk else |src|)
      && later == (if Needed(c, src, was, o) then [o] else []) + Differing(c, src, was, q)
      && (Deceived(c, src, was, o) <==>
            (!Needed(c, src, was, o) && l != Part(was, o, c.chunk)) || Deceived(c, src, was, q))
  {
    assert ChunkAt(c, src, o) == Part(src, o, c.chunk);
    assert ChunkAt(c, was, o) == Part(was, o, c.chunk);
    hide ChunkAt, Part;
  }

  /** Exactly the chunks needed differ, and a hash deceives where one that is not needed is not
      the source's. */
  lemma {:induction false} NeededExactly(c: Config, src: Payload, was: Payload, off: nat)
    requires c.chunk > 0 && off % c.chunk == 0
    ensures forall o: nat ::
      o in Differing(c, src, was, off) <==> off <= o && Starts(c, src, o) && Needed(c, src, was, o)
    ensures Deceived(c, src, was, off) <==>
      exists o: nat :: off <= o && Starts(c, src, o) && !Needed(c, src, was, o)
                       && Part(src, o, c.chunk) != Part(was, o, c.chunk)
    decreases |src| - off
  {
    hide ChunkAt, Part, Needed, Differing, Deceived;
    if off < |src| {
      FirstNeeded(c, src, was, off);
      NextMultiple(c.chunk, off, off);
      if off + c.chunk < |src| {
        NeededExactly(c, src, was, off + c.chunk);
      } else {
        NoMore(c, src, was, off + |ChunkAt(c, src, off)|);
      }
      forall o: nat | Starts(c, src, o) ensures off <= o <==> o == off || off + c.chunk <= o {
        NextMultiple(c.chunk, off, o);
      }
    } else {
      NoMore(c, src, was, off);
    }
  }

  lemma NoMore(c: Config, src: Payload, was: Payload, off: nat)
    requires c.chunk > 0 && off >= |src|
    ensures Differing(c, src, was, off) == [] && !Deceived(c, src, was, off)
  {
  }

  /** What a finished run comes to, in bytes: a copy longer than the source counts as empty; a
      chunk has landed, once and in order, if and only if its size or hash differs from the
      copy's; and the copy is the source unless a chunk that did not travel differs in bytes. */
  lemma TransferExactly(c: Config, src: Payload, srcTs: nat, first: Option<Payload>, ts: nat, up: bool, es: seq<Event>)
    requires c.chunk > 0
    requires var t0 := Fresh(first, ts, up, [], []); IsRun(c, src, srcTs, t0, es) && Done(After(c, src, srcTs, t0, es))
    ensures var t := After(c, src, srcTs, Fresh(first, ts, up, [], []), es);
      var was := if first.None? || |first.value| > |src| then [] else first.value;
      && Increasing(t.landed)
      && (forall o: nat :: o in t.landed <==> Starts(c, src, o) && Needed(c, src, was, o))
      && (t.r.file == Some(src) <==>
            forall o: nat :: Starts(c, src, o) && !Needed(c, src, was, o) ==>
              Part(src, o, c.chunk) == Part(was, o, c.chunk))
  {
    hide Merge, Differing, Settled, Deceived, Needed, Part, Done, IsRun, After;
    var was := Base(src, first);
    assert was == if first.None? || |first.value| > |src| then [] else first.value;
    TransferCorrect(c, src, srcTs, first, ts, up, es);
    DifferingIncreases(c, src, was, 0);
    NeededExactly(c, src, was, 0);
  }
}
