/** Transfers in which writes to the receiving side's file may fail: what becomes of the copy,
    and who is left waiting. */
module Faults {
  import opened Bytes
  import opened Sync
  import opened Lockstep

  /** An attempt under way: `first` is the copy it found, `lost` the offset of the first chunk
      whose write failed unnoticed, `refused` that of a chunk whose write failed and was answered
      so. */
  datatype Attempt = Attempt(t: Sys, first: Option<Payload>, lost: Option<nat>, refused: Option<nat>)

  datatype Doing = Going(e: Event) | Failing

  predicate Possible(a: Attempt, d: Doing) {
    match d
    case Going(e) => Enabled(a.t, e)
    case Failing => Enabled(a.t, Receiving) && RecvWaits(a.t.r) && Lands(a.t.r, a.t.toR[0])
  }

  /** A chunk arrives and its write fails. */
  function Fail(t: Sys): Sys
    requires |t.toR| > 0 && Lands(t.r, t.toR[0])
  {
    var (r, out) := RecvFail(t.r, t.toR[0]);
    t.(r := r, toR := t.toR[1..], toS := t.toS + out)
  }

  function Do(c: Config, src: Payload, srcTs: nat, a: Attempt, d: Doing): Attempt
    requires Possible(a, d)
  {
    match d
    case Going(Restarting(ts, up)) => Attempt(Fresh(a.t.r.file, ts, up, [], []), a.t.r.file, None, None)
    case Going(e) => a.(t := Step(c, src, srcTs, a.t, e))
    case Failing =>
      if a.t.r.pc.RFull? then a.(t := Fail(a.t), lost := Some(a.t.toR[0].off))
      else a.(t := Fail(a.t), refused := Some(a.t.toR[0].off))
  }

  function Begun(first: Option<Payload>, ts: nat, up: bool): Attempt {
    Attempt(Fresh(first, ts, up, [], []), first, None, None)
  }

  // ---------------------------------------------------------------- what every attempt keeps

  /** In the loop over the whole file the copy is the part of the source before the offset. */
  predicate Written(src: Payload, r: Receiver) {
    r.pc.RFull? ==> r.off <= |src| && r.file == Some(src[..r.off])
  }

  /** The state the other side takes this one for: as if every chunk had been written. */
  function Seeming(src: Payload, t: Sys): Sys {
    t.(r := t.r.(pc := if t.r.pc.RUnwritten? then RFull else t.r.pc,
                 file := Some(src[..if t.r.off <= |src| then t.r.off else |src|])))
  }

  /** From offset `p` on the file has not been written, and nobody knows. */
  predicate Deluded(c: Config, src: Payload, t: Sys, p: nat)
    requires c.chunk > 0
  {
    && t.r.pc in {RUnwritten, RDone} && p < t.r.off <= |src| && t.r.file == Some(src[..p])
    && InStep(c, src, Seeming(src, t))
  }

  /** The chunk at `p` was refused: the sender stops, the receiver goes on until it has to wait
      for more. */
  predicate Parted(c: Config, src: Payload, t: Sys, p: nat)
    requires c.chunk > 0
  {
    && p < |src| && t.toR == []
    && ((t.s.pc in {SCompareAck, STailAck} && t.toS == [Result(false)]) || (t.s.pc.SRefused? && t.toS == []))
    && t.r.off == p + |ChunkAt(c, src, p)| && t.r.rsize == |src|
    && ((t.r.pc.RReadless? && t.r.lsize <= |src|) || t.r.pc.RTail? || (t.r.pc.RDone? && t.r.off == |src|))
  }

  /** The chunk of the copy at `p` is not the source's. */
  predicate Lacks(c: Config, src: Payload, file: Option<Payload>, p: nat) {
    file.Some? && !Same(c, ChunkAt(c, src, p), ChunkAt(c, file.value, p))
  }

  predicate Sane(c: Config, src: Payload, a: Attempt)
    requires c.chunk > 0
  {
    match (a.lost, a.refused)
    case (None, None) => Sound(c, src, a.first, a.t) && Written(src, a.t.r)
    case (Some(p), None) => Deluded(c, src, a.t, p)
    case (None, Some(p)) => Parted(c, src, a.t, p) && Lacks(c, src, a.t.r.file, p)
    case _ => false
  }

  lemma BegunSane(c: Config, src: Payload, first: Option<Payload>, ts: nat, up: bool)
    requires c.chunk > 0
    ensures Sane(c, src, Begun(first, ts, up))
  {
    hide Sound;
    FreshSound(c, src, first, ts, up);
  }

  lemma WholeStep(c: Config, src: Payload, srcTs: nat, t: Sys)
    requires c.chunk > 0 && InStep(c, src, t) && Written(src, t.r) && Enabled(t, Receiving)
    ensures Written(src, Step(c, src, srcTs, t, Receiving).r)
    ensures t.r.pc.RFull? && RecvWaits(t.r) ==>
      && t.toR == [Chunk(t.r.off, ChunkAt(c, src, t.r.off))] && t.r.off < |src| == t.r.rsize
      && Step(c, src, srcTs, t, Receiving).r.file == Some(src[..t.r.off + |ChunkAt(c, src, t.r.off)|])
  {
    hide InStep, ChunkAt, WriteAt;
    if t.r.pc.RFull? && RecvWaits(t.r) {
      ChunkUnderWay(c, src, t);
      hide Walking, Step;
      WalkingSize(c, src, t.r);
      NextWritten(c, src, t.r.off);
      ChunkLands(c, src, srcTs, t);
    } else {
      OtherWritten(c, src, srcTs, t);
    }
  }

  lemma WalkingSize(c: Config, src: Payload, r: Receiver)
    requires c.chunk > 0 && Walking(c, src, r)
    ensures r.rsize == |src|
  {
  }

  lemma ChunkLands(c: Config, src: Payload, srcTs: nat, t: Sys)
    requires Enabled(t, Receiving) && t.r.pc.RFull? && RecvWaits(t.r) && t.toR[0].Chunk? && t.r.file.Some?
    ensures var t' := Step(c, src, srcTs, t, Receiving); var m := t.toR[0];
      t'.r == t.r.(file := Some(WriteAt(t.r.file.value, m.off, m.data)), off := t.r.off + |m.data|)
  {
    hide ChunkAt, WriteAt;
  }

  lemma OtherWritten(c: Config, src: Payload, srcTs: nat, t: Sys)
    requires Written(src, t.r) && Enabled(t, Receiving) && !(t.r.pc.RFull? && RecvWaits(t.r))
    ensures Written(src, Step(c, src, srcTs, t, Receiving).r)
  {
    hide ChunkAt, WriteAt;
  }

  lemma NextWritten(c: Config, src: Payload, off: nat)
    requires c.chunk > 0 && off < |src|
    ensures var l := ChunkAt(c, src, off); WriteAt(src[..off], off, l) == src[..off + |l|] && |l| > 0
  {
  }

  lemma SaneGoing(c: Config, src: Payload, srcTs: nat, a: Attempt, e: Event)
    requires c.chunk > 0 && Sane(c, src, a) && a.lost.None? && a.refused.None? && Enabled(a.t, e) && !e.Restarting?
    ensures Sane(c, src, Do(c, src, srcTs, a, Going(e)))
  {
    StepKeeps(c, src, srcTs, a.first, a.t, e);
    if e.Receiving? {
      WholeStep(c, src, srcTs, a.t);
    }
    hide Sound, InStep, ChunkAt, SendRead, SendAct, RecvRead, RecvAct;
  }

  lemma LandedAside(c: Config, src: Payload, t: Sys, landed: seq<nat>)
    requires c.chunk > 0
    ensures InStep(c, src, t.(landed := landed)) <==> InStep(c, src, t)
  {
    hide Paired, Walking;
    PairedAside(c, src, Rest(src, t), landed);
    assert Rest(src, t.(landed := landed)) == Rest(src, t).(landed := landed);
  }

  lemma PairedAside(c: Config, src: Payload, v: Sys, landed: seq<nat>)
    requires c.chunk > 0
    ensures Paired(c, src, v.(landed := landed)) <==> Paired(c, src, v)
  {
    hide ChunkAt;
  }

  /** The first write to fail in the loop over the whole file. */
  lemma LostBegins(c: Config, src: Payload, srcTs: nat, a: Attempt)
    requires c.chunk > 0 && Sane(c, src, a) && a.lost.None? && a.refused.None?
    requires Possible(a, Failing) && a.t.r.pc.RFull?
    ensures Sane(c, src, Do(c, src, srcTs, a, Failing))
  {
    var t := a.t;
    WholeStep(c, src, srcTs, t);
    ReceivingKeeps(c, src, srcTs, t);
    NextWritten(c, src, t.r.off);
    LandedAside(c, src, Step(c, src, srcTs, t, Receiving), t.landed);
    hide InStep, ChunkAt, WriteAt, OnCourse;
    assert Seeming(src, Fail(t)) == Step(c, src, srcTs, t, Receiving).(landed := t.landed);
  }

  lemma DeludedSends(c: Config, src: Payload, srcTs: nat, t: Sys, p: nat)
    requires c.chunk > 0 && Deluded(c, src, t, p) && Enabled(t, Sending)
    ensures Deluded(c, src, Step(c, src, srcTs, t, Sending), p)
  {
    hide InStep, SendRead, SendAct, Offsets;
    SendingKeeps(c, src, srcTs, Seeming(src, t));
    assert Seeming(src, Step(c, src, srcTs, t, Sending)) == Step(c, src, srcTs, Seeming(src, t), Sending);
  }

  lemma DeludedReceives(c: Config, src: Payload, srcTs: nat, t: Sys, p: nat)
    requires c.chunk > 0 && Deluded(c, src, t, p) && Enabled(t, Receiving)
    ensures Deluded(c, src, Step(c, src, srcTs, t, Receiving), p)
  {
    hide InStep, Step;
    var v := Seeming(src, t);
    ReceivingKeeps(c, src, srcTs, v);
    WholeStep(c, src, srcTs, v);
    SeemingReceives(c, src, srcTs, t);
    LandedAside(c, src, Step(c, src, srcTs, v, Receiving), t.landed);
  }

  lemma SeemingReceives(c: Config, src: Payload, srcTs: nat, t: Sys)
    requires c.chunk > 0 && t.r.pc.RUnwritten? && Enabled(t, Receiving) && t.r.off <= |src|
    requires RecvWaits(t.r) ==> t.r.off < |src| && t.toR == [Chunk(t.r.off, ChunkAt(c, src, t.r.off))]
    ensures var t' := Step(c, src, srcTs, t, Receiving);
      && Seeming(src, t') == Step(c, src, srcTs, Seeming(src, t), Receiving).(landed := t.landed)
      && t'.r.pc in {RUnwritten, RDone} && t.r.off <= t'.r.off <= |src| && t'.r.file == t.r.file
  {
    hide WriteAt, ChunkAt;
    if RecvWaits(t.r) {
      NextWritten(c, src, t.r.off);
    }
  }

  /** A write fails in the comparing loop or behind it. */
  lemma RefusedBegins(c: Config, src: Payload, srcTs: nat, a: Attempt)
    requires c.chunk > 0 && Sane(c, src, a) && a.lost.None? && a.refused.None?
    requires Possible(a, Failing) && !a.t.r.pc.RFull?
    ensures Sane(c, src, Do(c, src, srcTs, a, Failing))
  {
    ChunkUnderWay(c, src, a.t);
    AboutToPart(c, src, a.t);
    hide InStep, ChunkAt, OnCourse;
  }

  lemma AboutToPart(c: Config, src: Payload, t: Sys)
    requires c.chunk > 0 && InStep(c, src, t) && Enabled(t, Receiving)
    requires t.r.pc in {RCompareChunk, RTail} && RecvWaits(t.r)
    ensures t.s.pc in {SCompareAck, STailAck}
    ensures var l := |ChunkAt(c, src, t.r.off)|;
      t.r.pc.RCompareChunk? ==> (if l > t.r.lchunk then t.r.lsize + (l - t.r.lchunk) else t.r.lsize) <= |src|
  {
    hide Settled;
  }

  lemma PartedGoes(c: Config, src: Payload, srcTs: nat, t: Sys, p: nat, e: Event)
    requires c.chunk > 0 && Parted(c, src, t, p) && Enabled(t, e) && !e.Restarting?
    ensures Parted(c, src, Step(c, src, srcTs, t, e), p) && Step(c, src, srcTs, t, e).r.file == t.r.file
  {
    hide ChunkAt;
  }

  /** Whatever happens keeps the attempts sane. */
  lemma DoKeeps(c: Config, src: Payload, srcTs: nat, a: Attempt, d: Doing)
    requires c.chunk > 0 && Sane(c, src, a) && Possible(a, d)
    ensures Sane(c, src, Do(c, src, srcTs, a, d))
  {
    hide Sound, Deluded, Parted, Lacks, Step;
    if d.Going? && d.e.Restarting? {
      BegunSane(c, src, a.t.r.file, d.e.ts, d.e.up);
    } else if a.lost.Some? {
      DeludedGoes(c, src, srcTs, a, d);
    } else if a.refused.Some? {
      RefusedGoes(c, src, srcTs, a, d);
    } else if d.Going? {
      SaneGoing(c, src, srcTs, a, d.e);
    } else if a.t.r.pc.RFull? {
      LostBegins(c, src, srcTs, a);
    } else {
      RefusedBegins(c, src, srcTs, a);
    }
  }

  lemma DeludedGoes(c: Config, src: Payload, srcTs: nat, a: Attempt, d: Doing)
    requires c.chunk > 0 && Sane(c, src, a) && Possible(a, d) && a.lost.Some? && (d.Going? ==> !d.e.Restarting?)
    ensures Sane(c, src, Do(c, src, srcTs, a, d))
  {
    if d == Going(Sending) {
      DeludedSends(c, src, srcTs, a.t, a.lost.value);
    } else if d == Going(Receiving) {
      DeludedReceives(c, src, srcTs, a.t, a.lost.value);
    }
    hide InStep, Step;
  }

  lemma RefusedGoes(c: Config, src: Payload, srcTs: nat, a: Attempt, d: Doing)
    requires c.chunk > 0 && Sane(c, src, a) && Possible(a, d) && a.refused.Some? && (d.Going? ==> !d.e.Restarting?)
    ensures Sane(c, src, Do(c, src, srcTs, a, d))
  {
    if d.Going? {
      PartedGoes(c, src, srcTs, a.t, a.refused.value, d.e);
    }
    hide Step, ChunkAt, Same;
  }

  // ---------------------------------------------------------------- whole runs

  /** Everything in the list can happen in its turn. */
  predicate AllPossible(c: Config, src: Payload, srcTs: nat, a: Attempt, ds: seq<Doing>)
    decreases |ds|
  {
    ds == [] || (Possible(a, ds[0]) && AllPossible(c, src, srcTs, Do(c, src, srcTs, a, ds[0]), ds[1..]))
  }

  function Outcome(c: Config, src: Payload, srcTs: nat, a: Attempt, ds: seq<Doing>): Attempt
    requires AllPossible(c, src, srcTs, a, ds)
    decreases |ds|
  {
    if ds == [] then a else Outcome(c, src, srcTs, Do(c, src, srcTs, a, ds[0]), ds[1..])
  }

  lemma {:induction false} RunSane(c: Config, src: Payload, srcTs: nat, a: Attempt, ds: seq<Doing>)
    requires c.chunk > 0 && Sane(c, src, a) && AllPossible(c, src, srcTs, a, ds)
    ensures Sane(c, src, Outcome(c, src, srcTs, a, ds))
    decreases |ds|
  {
    hide Sane, Do, Possible;
    if ds != [] {
      DoKeeps(c, src, srcTs, a, ds[0]);
      RunSane(c, src, srcTs, Do(c, src, srcTs, a, ds[0]), ds[1..]);
    }
  }

  // ---------------------------------------------------------------- what becomes of the copy

  lemma FinishedIsSettled(c: Config, src: Payload, t: Sys)
    requires c.chunk > 0 && InStep(c, src, t) && t.r.pc.RDone?
    ensures t.r.file.Some? && SizeOf(t.r.file) == |src| && Settled(c, src, t.r.file.value, 0, |src|)
  {
    hide Settled, ChunkAt;
  }

  /** Whenever the receiver reports success, after any restarts and failed writes, the copy is
      known exactly: the merged file if every write succeeded, the part before the first failed
      write in the loop over the whole file, and otherwise one that lacks the last chunk.  It is
      the source if and only if no write of the attempt failed and no chunk deceives. */
  lemma CopyExactly(c: Config, src: Payload, srcTs: nat, first: Option<Payload>, ts: nat, up: bool, ds: seq<Doing>)
    requires c.chunk > 0 && AllPossible(c, src, srcTs, Begun(first, ts, up), ds)
    ensures var a := Outcome(c, src, srcTs, Begun(first, ts, up), ds); var was := Base(src, a.first);
      a.t.r.pc.RDone? ==>
      && (a.lost.None? && a.refused.None? ==> a.t.r.file == Some(Merge(c, src, was, 0)))
      && (a.lost.Some? ==> a.lost.value < |src| && a.t.r.file == Some(src[..a.lost.value]))
      && (a.refused.Some? ==> Lacks(c, src, a.t.r.file, a.refused.value))
      && (Content(a.t.r.file) == src <==> a.lost.None? && a.refused.None? && !Deceived(c, src, was, 0))
  {
    hide Sane, Do, Possible, Deceived, Merge;
    BegunSane(c, src, first, ts, up);
    RunSane(c, src, srcTs, Begun(first, ts, up), ds);
    var a := Outcome(c, src, srcTs, Begun(first, ts, up), ds);
    if a.t.r.pc.RDone? {
      CopyOf(c, src, a);
    }
  }

  lemma CopyOf(c: Config, src: Payload, a: Attempt)
    requires c.chunk > 0 && Sane(c, src, a) && a.t.r.pc.RDone?
    ensures var was := Base(src, a.first);
      && (a.lost.None? && a.refused.None? ==> a.t.r.file == Some(Merge(c, src, was, 0)))
      && (a.lost.Some? ==> a.lost.value < |src| && a.t.r.file == Some(src[..a.lost.value]))
      && (a.refused.Some? ==> Lacks(c, src, a.t.r.file, a.refused.value))
      && (Content(a.t.r.file) == src <==> a.lost.None? && a.refused.None? && !Deceived(c, src, was, 0))
  {
    if a.lost.None? && a.refused.None? {
      hide InStep, Merge, Differing, Settled, Deceived;
      FinishedIsSettled(c, src, a.t);
      SettledIsMerged(c, src, a.t.r.file.value, 0);
      MergeIsSource(c, src, Base(src, a.first), 0);
      assert src[0..] == src && a.t.r.file.value[0..] == a.t.r.file.value;
    } else {
      hide InStep, ChunkAt, Merge, Deceived;
    }
  }

  // ---------------------------------------------------------------- who waits

  /** Neither side can go on, and not both are done. */
  predicate Stuck(t: Sys) {
    !Enabled(t, Sending) && !Enabled(t, Receiving) && !Done(t)
  }

  /** The pair gets stuck if and only if a write was refused and the sender has stopped for it and
      the receiver come to rest: waiting for ever, unless it was the last chunk of the source. */
  lemma StuckExactly(c: Config, src: Payload, srcTs: nat, first: Option<Payload>, ts: nat, up: bool, ds: seq<Doing>)
    requires c.chunk > 0 && AllPossible(c, src, srcTs, Begun(first, ts, up), ds)
    ensures var a := Outcome(c, src, srcTs, Begun(first, ts, up), ds);
      && (Stuck(a.t) <==> a.refused.Some? && a.t.s.pc.SRefused? && (a.t.r.pc.RDone? || RecvWaits(a.t.r)))
      && (Stuck(a.t) ==> (RecvWaits(a.t.r) <==> a.refused.value + |ChunkAt(c, src, a.refused.value)| < |src|))
  {
    hide Sane, Do, Possible, Stuck;
    BegunSane(c, src, first, ts, up);
    RunSane(c, src, srcTs, Begun(first, ts, up), ds);
    StuckWhen(c, src, Outcome(c, src, srcTs, Begun(first, ts, up), ds));
  }

  lemma StuckWhen(c: Config, src: Payload, a: Attempt)
    requires c.chunk > 0 && Sane(c, src, a)
    ensures Stuck(a.t) <==> a.refused.Some? && a.t.s.pc.SRefused? && (a.t.r.pc.RDone? || RecvWaits(a.t.r))
    ensures Stuck(a.t) ==> (RecvWaits(a.t.r) <==> a.refused.value + |ChunkAt(c, src, a.refused.value)| < |src|)
  {
    if a.lost.Some? {
      SeemingNotStuck(c, src, a.t, a.lost.value);
    } else if a.refused.None? {
      NeverStuck(c, src, a.first, a.t);
    }
    hide InStep, OnCourse, ChunkAt, Same;
  }

  lemma SeemingNotStuck(c: Config, src: Payload, t: Sys, p: nat)
    requires c.chunk > 0 && Deluded(c, src, t, p)
    ensures !Stuck(t) && t.s.pc !in {SRefused, SBroken}
  {
    NotStuckInStep(c, src, Seeming(src, t));
    hide InStep;
  }

  lemma NotStuckInStep(c: Config, src: Payload, t: Sys)
    requires c.chunk > 0 && InStep(c, src, t)
    ensures t.s.pc !in {SRefused, SBroken} && (Done(t) || Enabled(t, Sending) || Enabled(t, Receiving))
  {
    hide Settled, ChunkAt;
  }

  /** After a refusal at most three steps are left, unless the attempt is broken off. */
  lemma {:induction false} RefusedStops(c: Config, src: Payload, srcTs: nat, a: Attempt, ds: seq<Doing>)
    requires c.chunk > 0 && Sane(c, src, a) && a.refused.Some? && AllPossible(c, src, srcTs, a, ds)
    requires forall i :: 0 <= i < |ds| ==> ds[i].Going? ==> !ds[i].e.Restarting?
    ensures |ds| <= StepsLeft(a.t) <= 3
    decreases |ds|
  {
    hide Sane;
    if ds != [] {
      RefusedGoes(c, src, srcTs, a, ds[0]);
      RefusedStep(c, src, srcTs, a, ds[0]);
      RefusedStops(c, src, srcTs, Do(c, src, srcTs, a, ds[0]), ds[1..]);
    }
  }

  function StepsLeft(t: Sys): nat {
    (if t.s.pc.SRefused? then 0 else 1) +
    (match t.r.pc case RReadless => 2 case RTail => 1 case _ => 0)
  }

  lemma RefusedStep(c: Config, src: Payload, srcTs: nat, a: Attempt, d: Doing)
    requires c.chunk > 0 && Sane(c, src, a) && a.refused.Some? && Possible(a, d) && (d.Going? ==> !d.e.Restarting?)
    ensures var a' := Do(c, src, srcTs, a, d); a'.refused == a.refused && StepsLeft(a'.t) < StepsLeft(a.t)
  {
    hide ChunkAt, Same;
  }

  // ---------------------------------------------------------------- both happen

  /** A file of one chunk is sent where there is none, the write fails, both sides report
      success, and the copy is empty. */
  lemma WrongCopyReached(c: Config, src: Payload, srcTs: nat, ts: nat) returns (ds: seq<Doing>)
    requires 0 < |src| <= c.chunk
    ensures AllPossible(c, src, srcTs, Begun(None, ts, true), ds)
    ensures var a := Outcome(c, src, srcTs, Begun(None, ts, true), ds); Done(a.t) && a.t.r.file == Some([])
  {
    var S, R := Going(Sending), Going(Receiving);
    var a0 := Begun(None, ts, true);
    var a1, a2, a3 := Announced(c, src, srcTs, None, ts);
    assert ChunkAt(c, src, 0) == src;
    hide ChunkAt, Begun;
    var a4 := Do(c, src, srcTs, a3, S);
    assert a4.t.toR == [Chunk(0, src)] && a4.t.r.pc.RFull? && a4.t.toS == [];
    var a5 := Do(c, src, srcTs, a4, Failing);
    assert a5.t.toR == [] && a5.t.toS == [Result(true)] && a5.t.r.pc.RUnwritten? && a5.t.r.off == |src|;
    var a6 := Do(c, src, srcTs, a5, S);
    var a7 := Do(c, src, srcTs, a6, S);
    var a8 := Do(c, src, srcTs, a7, R);
    hide Do, Possible, AllPossible, Outcome, Stuck;
    Nothing(c, src, srcTs, a8);
    ds := [];
    ds := Before(c, src, srcTs, a7, R, ds);
    ds := Before(c, src, srcTs, a6, S, ds);
    ds := Before(c, src, srcTs, a5, S, ds);
    ds := Before(c, src, srcTs, a4, Failing, ds);
    ds := Before(c, src, srcTs, a3, S, ds);
    ds := Before(c, src, srcTs, a2, S, ds);
    ds := Before(c, src, srcTs, a1, R, ds);
    ds := Before(c, src, srcTs, a0, S, ds);
  }

  /** The two announcements of an upload. */
  lemma Announced(c: Config, src: Payload, srcTs: nat, first: Option<Payload>, ts: nat)
    returns (a1: Attempt, a2: Attempt, a3: Attempt)
    requires SizeOf(first) < |src|
    ensures var S, R, a0 := Going(Sending), Going(Receiving), Begun(first, ts, true);
      && Possible(a0, S) && a1 == Do(c, src, srcTs, a0, S) && Possible(a1, R) && a2 == Do(c, src, srcTs, a1, R)
      && Possible(a2, S) && a3 == Do(c, src, srcTs, a2, S)
    ensures a3.first == first && a3.lost == a3.refused == None && a3.t.toR == a3.t.toS == []
    ensures var n := SizeOf(first);
      && a3.t.s == Sender(if n == 0 && Stamp(first, ts) == 0 then SFull else SCompare, n, 0, a3.t.s.rchunk)
      && a3.t.r == RecvBegin(Receiver(RServe, first, ts, n, 0, 0, 0), |src|)
  {
    hide ChunkAt, Offsets;
    var S, R := Going(Sending), Going(Receiving);
    a1 := Do(c, src, srcTs, Begun(first, ts, true), S);
    a2 := Do(c, src, srcTs, a1, R);
    a3 := Do(c, src, srcTs, a2, S);
  }

  /** A copy of one chunk differs from the first chunk of the source, which has more; the write
      fails, and the receiver waits for ever. */
  lemma StuckReached(c: Config, src: Payload, srcTs: nat, was: Payload, ts: nat) returns (ds: seq<Doing>)
    requires 0 < |was| == c.chunk < |src| && c.hash(was) != c.hash(src[..c.chunk])
    ensures AllPossible(c, src, srcTs, Begun(Some(was), ts, true), ds)
    ensures var a := Outcome(c, src, srcTs, Begun(Some(was), ts, true), ds); Stuck(a.t) && RecvWaits(a.t.r)
  {
    var S, R := Going(Sending), Going(Receiving);
    var a0 := Begun(Some(was), ts, true);
    var a1, a2, a3 := Announced(c, src, srcTs, Some(was), ts);
    var l := src[..c.chunk];
    assert ChunkAt(c, src, 0) == l && ChunkAt(c, was, 0) == was;
    hide ChunkAt, Begun;
    var a4 := Do(c, src, srcTs, a3, S);
    assert a4.t.toR == [HashOf(0, c.chunk, c.hash(l))] && a4.t.toS == [] && a4.t.r.pc.RCompare?;
    var a5 := Do(c, src, srcTs, a4, R);
    assert a5.t.toR == [] && a5.t.toS == [HashOf(0, c.chunk, c.hash(was))] && a5.t.r.pc.RCompareChunk?;
    var a6, a7, a8, a9 := Refuses(c, src, srcTs, a5, l);
    hide Do, Possible, AllPossible, Outcome, Stuck;
    Nothing(c, src, srcTs, a9);
    ds := [];
    ds := Before(c, src, srcTs, a8, R, ds);
    ds := Before(c, src, srcTs, a7, S, ds);
    ds := Before(c, src, srcTs, a6, Failing, ds);
    ds := Before(c, src, srcTs, a5, S, ds);
    ds := Before(c, src, srcTs, a4, R, ds);
    ds := Before(c, src, srcTs, a3, S, ds);
    ds := Before(c, src, srcTs, a2, S, ds);
    ds := Before(c, src, srcTs, a1, R, ds);
    ds := Before(c, src, srcTs, a0, S, ds);
  }

  lemma Refuses(c: Config, src: Payload, srcTs: nat, a5: Attempt, l: Payload)
    returns (a6: Attempt, a7: Attempt, a8: Attempt, a9: Attempt)
    requires 0 < |l| == c.chunk < |src| && l == ChunkAt(c, src, 0) && a5.t.toR == [] && |a5.t.toS| == 1
    requires var m := a5.t.toS[0]; m.HashOf? && m.off == 0 && m.size == c.chunk && m.hash != c.hash(l)
    requires a5.t.s.pc.SCompareHash? && a5.t.s.off == 0
    requires a5.t.r.pc.RCompareChunk? && a5.t.r.off == 0 && a5.t.r.lchunk == a5.t.r.lsize == c.chunk
    requires a5.t.r.rsize == |src|
    ensures var S, R := Going(Sending), Going(Receiving);
      && Possible(a5, S) && a6 == Do(c, src, srcTs, a5, S)
      && Possible(a6, Failing) && a7 == Do(c, src, srcTs, a6, Failing)
      && Possible(a7, S) && a8 == Do(c, src, srcTs, a7, S) && Possible(a8, R) && a9 == Do(c, src, srcTs, a8, R)
    ensures Stuck(a9.t) && RecvWaits(a9.t.r)
  {
    hide ChunkAt;
    a6 := Do(c, src, srcTs, a5, Going(Sending));
    assert a6.t.toR == [Chunk(0, l)] && a6.t.toS == [] && a6.t.r == a5.t.r;
    a7 := Do(c, src, srcTs, a6, Failing);
    assert a7.t.toR == [] && a7.t.toS == [Result(false)] && a7.t.r.pc.RReadless? && a7.t.r.off == c.chunk;
    a8 := Do(c, src, srcTs, a7, Going(Sending));
    a9 := Do(c, src, srcTs, a8, Going(Receiving));
  }

  lemma Nothing(c: Config, src: Payload, srcTs: nat, a: Attempt)
    ensures AllPossible(c, src, srcTs, a, []) && Outcome(c, src, srcTs, a, []) == a
  {
  }

  /** One thing more at the beginning. */
  lemma Before(c: Config, src: Payload, srcTs: nat, a: Attempt, d: Doing, ds: seq<Doing>) returns (all: seq<Doing>)
    requires Possible(a, d) && AllPossible(c, src, srcTs, Do(c, src, srcTs, a, d), ds)
    ensures AllPossible(c, src, srcTs, a, all)
    ensures Outcome(c, src, srcTs, a, all) == Outcome(c, src, srcTs, Do(c, src, srcTs, a, d), ds)
  {
    hide Possible, Do;
    all := [d] + ds;
    assert all[1..] == ds;
  }
}
