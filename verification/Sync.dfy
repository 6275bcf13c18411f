/** The two peers of a file transfer: the one that owns the source walks it chunk by chunk, the
    other walks its own copy in step, and only chunks that differ travel.  The channels are
    first in, first out. */
module Sync {
  import opened Bytes

  /** The chunk size and the chunk hash. */
  datatype Config = Config(chunk: nat, hash: Payload -> nat)

  /** `Info` announces a file's size and timestamp and whether the client uploads. */
  datatype Msg =
    | Info(size: nat, ts: nat, up: bool)
    | HashOf(off: nat, size: nat, hash: nat)
    | Chunk(off: nat, data: Payload)
    | Result(ok: bool)

  function ChunkAt(c: Config, file: Payload, off: nat): (r: Payload)
    ensures |r| <= c.chunk && off + |r| <= if off < |file| then |file| else off
    ensures off < |file| && c.chunk > 0 ==> |r| > 0
  {
    if off >= |file| then []
    else if off + c.chunk <= |file| then file[off..off + c.chunk]
    else file[off..]
  }

  /** The test both sides make before a chunk is resent. */
  predicate Same(c: Config, a: Payload, b: Payload) {
    |a| == |b| && c.hash(a) == c.hash(b)
  }

  // ---------------------------------------------------------------- the sending side

  datatype SendPc =
    | SHello | SWaitInfo | SServe
    | SFull | SFullAck
    | SCompare | SCompareHash | SCompareAck
    | STail | STailAck
    | SDone | SRefused | SBroken

  /** `rsize` is this side's own record of the size of the other side's copy. */
  datatype Sender = Sender(pc: SendPc, rsize: nat, off: nat, rchunk: nat)

  predicate SendWaits(pc: SendPc) {
    pc in {SWaitInfo, SServe, SFullAck, SCompareHash, SCompareAck, STailAck}
  }

  function SendBegin(src: Payload, s: Sender, size: nat, ts: nat): Sender {
    if (size == 0 && ts == 0) || size > |src|
    then s.(pc := SFull, rsize := size, off := 0)
    else s.(pc := SCompare, rsize := size, off := 0)
  }

  /** A step that waits for nothing. */
  function SendAct(c: Config, src: Payload, ts: nat, s: Sender): (Sender, seq<Msg>) {
    var l := ChunkAt(c, src, s.off);
    match s.pc
    case SHello => (s.(pc := SWaitInfo), [Info(|src|, ts, true)])
    case SFull => if s.off < |src| then (s.(pc := SFullAck), [Chunk(s.off, l)]) else (s.(pc := SDone), [])
    case SCompare =>
      if s.off < s.rsize then (s.(pc := SCompareHash), [HashOf(s.off, |l|, c.hash(l))])
      else (s.(pc := STail), [])
    case STail => if s.off < |src| then (s.(pc := STailAck), [Chunk(s.off, l)]) else (s.(pc := SDone), [])
    case _ => (s, [])
  }

  /** The step a message lets through.  A negative answer to a chunk ends the session, and so
      does anything but the expected message. */
  function SendRead(c: Config, src: Payload, ts: nat, s: Sender, m: Msg): (Sender, seq<Msg>) {
    var l := ChunkAt(c, src, s.off);
    match (s.pc, m)
    case (SWaitInfo, Info(size, rts, _)) => (SendBegin(src, s, size, rts), [])
    case (SServe, Info(size, rts, false)) => (SendBegin(src, s, size, rts), [Info(|src|, ts, false)])
    case (SFullAck, Result(true)) => (s.(pc := SFull, off := s.off + |l|), [])
    case (SCompareHash, HashOf(off, size, h)) =>
      if off != s.off then (s.(pc := SBroken), [])
      else if |l| != size || c.hash(l) != h
      then (s.(pc := SCompareAck, rchunk := size), [Chunk(s.off, l)])
      else (s.(pc := SCompare, off := s.off + |l|), [])
    case (SCompareAck, Result(true)) =>
      (s.(pc := SCompare, off := s.off + |l|,
          rsize := if |l| > s.rchunk then s.rsize + (|l| - s.rchunk) else s.rsize), [])
    case (STailAck, Result(true)) => (s.(pc := STail, off := s.off + |l|), [])
    case (SFullAck, Result(false)) => (s.(pc := SRefused), [])
    case (SCompareAck, Result(false)) => (s.(pc := SRefused), [])
    case (STailAck, Result(false)) => (s.(pc := SRefused), [])
    case _ => (s.(pc := SBroken), [])
  }

  // ---------------------------------------------------------------- the receiving side

  /** Two states follow a failed write: `RUnwritten` is the loop over a whole file whose stream
      has failed, `RReadless` the comparing loop until the stream is cleared, by the next write. */
  datatype RecvPc =
    | RHello | RWaitInfo | RServe
    | RFull | RCompare | RCompareChunk | RTail
    | RUnwritten | RReadless
    | RDone | RBroken

  /** `file` is the copy, `ts` its timestamp; `lsize` and `rsize` are this side's records of
      the sizes of the copy and of the source. */
  datatype Receiver =
    Receiver(pc: RecvPc, file: Option<Payload>, ts: nat, lsize: nat, rsize: nat, off: nat, lchunk: nat)

  function Content(file: Option<Payload>): Payload {
    if file.Some? then file.value else []
  }

  /** What the file system reports; a missing file counts as empty and timeless. */
  function Stamp(file: Option<Payload>, ts: nat): nat {
    if file.Some? then ts else 0
  }

  predicate RecvWaits(r: Receiver) {
    match r.pc
    case RWaitInfo | RServe | RCompareChunk => true
    case RFull | RTail | RUnwritten => r.off < r.rsize
    case RCompare | RReadless => r.off < r.lsize
    case _ => false
  }

  function RecvBegin(r: Receiver, size: nat): Receiver {
    if (r.lsize == 0 && Stamp(r.file, r.ts) == 0) || r.lsize > size
    then r.(pc := RFull, file := Some([]), rsize := size, off := 0)
    else r.(pc := RCompare, rsize := size, off := 0)
  }

  /** Overwriting at a position; the file system fills a gap with zeros. */
  function WriteAt(file: Payload, off: nat, data: Payload): Payload {
    var padded: Payload := if off <= |file| then file else file + seq(off - |file|, _ => 0);
    padded[..off] + data + if off + |data| <= |padded| then padded[off + |data|..] else []
  }

  function Land(r: Receiver, off: nat, data: Payload): Receiver {
    r.(file := Some(WriteAt(Content(r.file), off, data)))
  }

  predicate Lands(r: Receiver, m: Msg) {
    r.pc in {RFull, RCompareChunk, RTail} && m.Chunk?
  }

  function RecvAct(r: Receiver): (Receiver, seq<Msg>) {
    match r.pc
    case RHello => (r.(pc := RWaitInfo), [Info(r.lsize, Stamp(r.file, r.ts), false)])
    case RFull | RTail | RUnwritten => (r.(pc := RDone), [])
    case RCompare | RReadless => (r.(pc := RTail), [])
    case _ => (r, [])
  }

  /** The comparison of the other side's chunk with `mine`, what was read of the copy. */
  function Compared(c: Config, r: Receiver, mine: Payload, o: nat, size: nat, h: nat): (Receiver, seq<Msg>) {
    (if r.off != o then r.(pc := RBroken)
     else if |mine| != size || c.hash(mine) != h then r.(pc := RCompareChunk, lchunk := |mine|)
     else r.(off := r.off + size),
     [HashOf(r.off, |mine|, c.hash(mine))])
  }

  function RecvRead(c: Config, r: Receiver, m: Msg): (Receiver, seq<Msg>) {
    match (r.pc, m)
    case (RWaitInfo, Info(size, _, _)) => (RecvBegin(r, size), [])
    case (RServe, Info(size, _, true)) => (RecvBegin(r, size), [Info(r.lsize, Stamp(r.file, r.ts), true)])
    case (RFull, Chunk(o, d)) => (Land(r, o, d).(off := r.off + |d|), [Result(true)])
    case (RUnwritten, Chunk(o, d)) => (r.(off := r.off + |d|), [Result(true)])
    case (RCompare, HashOf(o, size, h)) => Compared(c, r, ChunkAt(c, Content(r.file), r.off), o, size, h)
    case (RReadless, HashOf(o, size, h)) => Compared(c, r, [], o, size, h)
    case (RCompareChunk, Chunk(o, d)) =>
      (Land(r, o, d).(pc := RCompare, off := r.off + |d|,
                      lsize := if |d| > r.lchunk then r.lsize + (|d| - r.lchunk) else r.lsize),
       [Result(true)])
    case (RTail, Chunk(o, d)) => (Land(r, o, d).(off := r.off + |d|), [Result(true)])
    case _ => (r.(pc := RBroken), [])
  }

  /** The write of a chunk fails.  In the loop over a whole file the answer is positive all the
      same; in the others it is negative, and the receiver goes on as if it had been written. */
  function RecvFail(r: Receiver, m: Msg): (Receiver, seq<Msg>)
    requires Lands(r, m)
  {
    match r.pc
    case RFull => (r.(pc := RUnwritten, off := r.off + |m.data|), [Result(true)])
    case RCompareChunk =>
      (r.(pc := RReadless, off := r.off + |m.data|,
          lsize := if |m.data| > r.lchunk then r.lsize + (|m.data| - r.lchunk) else r.lsize),
       [Result(false)])
    case _ => (r.(off := r.off + |m.data|), [Result(false)])
  }

  // ---------------------------------------------------------------- the pair

  /** `sent` and `landed` log the offsets of the chunks put on the wire and of those written. */
  datatype Sys = Sys(s: Sender, r: Receiver, toR: seq<Msg>, toS: seq<Msg>, sent: seq<nat>, landed: seq<nat>)

  /** `Restarting` is a connection lost at any point and a fresh attempt, in either direction;
      the copy survives as it is, under whatever timestamp it then has. */
  datatype Event = Sending | Receiving | Restarting(ts: nat, up: bool)

  function SizeOf(file: Option<Payload>): nat {
    |Content(file)|
  }

  function Fresh(file: Option<Payload>, ts: nat, up: bool, sent: seq<nat>, landed: seq<nat>): Sys {
    Sys(Sender(if up then SHello else SServe, 0, 0, 0),
        Receiver(if up then RServe else RHello, file, ts, SizeOf(file), 0, 0, 0), [], [], sent, landed)
  }

  predicate Enabled(t: Sys, e: Event) {
    match e
    case Sending => t.s.pc !in {SDone, SRefused, SBroken} && (SendWaits(t.s.pc) ==> |t.toS| > 0)
    case Receiving => t.r.pc !in {RDone, RBroken} && (RecvWaits(t.r) ==> |t.toR| > 0)
    case Restarting(_, _) => true
  }

  /** The offsets of the chunks among some messages. */
  function Offsets(ms: seq<Msg>): seq<nat> {
    if |ms| == 0 then []
    else (if ms[0].Chunk? then [ms[0].off] else []) + Offsets(ms[1..])
  }

  function Step(c: Config, src: Payload, srcTs: nat, t: Sys, e: Event): Sys
    requires Enabled(t, e)
  {
    match e
    case Sending =>
      var (s, out) := if SendWaits(t.s.pc) then SendRead(c, src, srcTs, t.s, t.toS[0]) else SendAct(c, src, srcTs, t.s);
      t.(s := s, toS := if SendWaits(t.s.pc) then t.toS[1..] else t.toS,
         toR := t.toR + out, sent := t.sent + Offsets(out))
    case Receiving =>
      var (r, out) := if RecvWaits(t.r) then RecvRead(c, t.r, t.toR[0]) else RecvAct(t.r);
      t.(r := r, toR := if RecvWaits(t.r) then t.toR[1..] else t.toR, toS := t.toS + out,
         landed := t.landed + if RecvWaits(t.r) && Lands(t.r, t.toR[0]) then [t.toR[0].off] else [])
    case Restarting(ts, up) => Fresh(t.r.file, ts, up, t.sent, t.landed)
  }

  // ---------------------------------------------------------------- what a transfer amounts to

  /** The copy a transfer ends with: chunk by chunk, the old bytes where size and hash agree
      with the source and the source's bytes everywhere else. */
  function Merge(c: Config, src: Payload, was: Payload, off: nat): Payload
    requires c.chunk > 0
    decreases |src| - off
  {
    var l, r := ChunkAt(c, src, off), ChunkAt(c, was, off);
    if off >= |src| then [] else (if Same(c, l, r) then r else l) + Merge(c, src, was, off + |l|)
  }

  /** The offsets of the chunks that have to travel. */
  function Differing(c: Config, src: Payload, was: Payload, off: nat): seq<nat>
    requires c.chunk > 0
    decreases |src| - off
  {
    var l, r := ChunkAt(c, src, off), ChunkAt(c, was, off);
    if off >= |src| then [] else (if Same(c, l, r) then [] else [off]) + Differing(c, src, was, off + |l|)
  }

  /** The bytes of the copy that a transfer builds on: a copy longer than the source is
      truncated first. */
  function Base(src: Payload, file: Option<Payload>): Payload {
    if SizeOf(file) > |src| then [] else Content(file)
  }

  /** From `p` up to `off` the copy needs no chunk. */
  predicate Settled(c: Config, src: Payload, f: Payload, p: nat, off: nat)
    requires c.chunk > 0
    decreases |src| - p
  {
    p == off ||
    (p < off && p < |src| &&
     var l := ChunkAt(c, src, p);
     Same(c, l, ChunkAt(c, f, p)) && p + |l| <= off && Settled(c, src, f, p + |l|, off))
  }

  lemma {:induction false} MergeFrame(c: Config, src: Payload, f: Payload, g: Payload, off: nat)
    requires c.chunk > 0
    requires forall o: nat :: off <= o ==> ChunkAt(c, f, o) == ChunkAt(c, g, o)
    ensures Merge(c, src, f, off) == Merge(c, src, g, off)
    ensures Differing(c, src, f, off) == Differing(c, src, g, off)
    decreases |src| - off
  {
    if off < |src| {
      MergeFrame(c, src, f, g, off + |ChunkAt(c, src, off)|);
    }
  }

  lemma {:induction false} SettledFurther(c: Config, src: Payload, f: Payload, p: nat, off: nat)
    requires c.chunk > 0 && Settled(c, src, f, p, off) && off < |src|
    requires Same(c, ChunkAt(c, src, off), ChunkAt(c, f, off))
    ensures Settled(c, src, f, p, off + |ChunkAt(c, src, off)|)
    decreases |src| - p
  {
    if p < off {
      SettledFurther(c, src, f, p + |ChunkAt(c, src, p)|, off);
    }
  }

  /** Bytes of two files that agree up to `off` make the same settled chunks. */
  lemma SettledChunk(c: Config, src: Payload, f: Payload, g: Payload, p: nat, off: nat)
    requires c.chunk > 0 && p < |src|
    requires Same(c, ChunkAt(c, src, p), ChunkAt(c, f, p)) && p + |ChunkAt(c, src, p)| <= off
    requires off <= |f| <= |src| && off <= |g| <= |src| && f[..off] == g[..off]
    ensures ChunkAt(c, g, p) == ChunkAt(c, f, p)
  {
    var q := p + |ChunkAt(c, src, p)|;
    assert ChunkAt(c, f, p) == f[..off][p..q];
    assert ChunkAt(c, g, p) == g[..off][p..q];
  }

  /** Landing a chunk that differs takes exactly its offset off the work left. */
  lemma {:induction false} Landing(c: Config, src: Payload, f: Payload, p: nat, off: nat)
    requires c.chunk > 0 && off < |src| && off <= |f| <= |src| && Settled(c, src, f, p, off)
    requires !Same(c, ChunkAt(c, src, off), ChunkAt(c, f, off))
    ensures var g := WriteAt(f, off, ChunkAt(c, src, off));
      && Merge(c, src, g, p) == Merge(c, src, f, p)
      && [off] + Differing(c, src, g, p) == Differing(c, src, f, p)
      && Settled(c, src, g, p, off + |ChunkAt(c, src, off)|)
    decreases |src| - p
  {
    hide WriteAt, ChunkAt, Same;
    var g := WriteAt(f, off, ChunkAt(c, src, off));
    if p == off {
      LandingHere(c, src, f, off);
    } else {
      WriteShape(c, src, f, off);
      SettledChunk(c, src, f, g, p, off);
      Landing(c, src, f, p + |ChunkAt(c, src, p)|, off);
    }
  }

  lemma LandingHere(c: Config, src: Payload, f: Payload, off: nat)
    requires c.chunk > 0 && off < |src| && off <= |f| <= |src|
    requires !Same(c, ChunkAt(c, src, off), ChunkAt(c, f, off))
    ensures var g := WriteAt(f, off, ChunkAt(c, src, off));
      && Merge(c, src, g, off) == Merge(c, src, f, off)
      && [off] + Differing(c, src, g, off) == Differing(c, src, f, off)
      && Settled(c, src, g, off, off + |ChunkAt(c, src, off)|)
  {
    hide WriteAt, ChunkAt, Merge, Differing, Settled;
    WriteShape(c, src, f, off);
    NothingBeyond(c, src, f, off);
    OneChunk(c, src, f, off);
    OneChunk(c, src, WriteAt(f, off, ChunkAt(c, src, off)), off);
  }

  /** The first chunk of a merge. */
  lemma OneChunk(c: Config, src: Payload, f: Payload, off: nat)
    requires c.chunk > 0 && off < |src|
    ensures var l, r, q := ChunkAt(c, src, off), ChunkAt(c, f, off), off + |ChunkAt(c, src, off)|;
      if Same(c, l, r)
      then Merge(c, src, f, off) == r + Merge(c, src, f, q) && Differing(c, src, f, off) == Differing(c, src, f, q)
        && Settled(c, src, f, off, q)
      else
        Merge(c, src, f, off) == l + Merge(c, src, f, q)
        && Differing(c, src, f, off) == [off] + Differing(c, src, f, q)
  {
    hide ChunkAt, Same;
    var q := off + |ChunkAt(c, src, off)|;
    assert Settled(c, src, f, q, q);
  }

  lemma NothingBeyond(c: Config, src: Payload, f: Payload, off: nat)
    requires c.chunk > 0 && off < |src| && off <= |f| <= |src|
    ensures var l, g := ChunkAt(c, src, off), WriteAt(f, off, ChunkAt(c, src, off));
      && Merge(c, src, g, off + |l|) == Merge(c, src, f, off + |l|)
      && Differing(c, src, g, off + |l|) == Differing(c, src, f, off + |l|)
  {
    hide WriteAt, ChunkAt, Merge, Differing;
    var l := ChunkAt(c, src, off);
    forall o: nat | off + |l| <= o ensures ChunkAt(c, WriteAt(f, off, l), o) == ChunkAt(c, f, o) {
      BeyondWrite(c, src, f, off, o);
    }
    MergeFrame(c, src, WriteAt(f, off, l), f, off + |l|);
  }

  lemma WriteShape(c: Config, src: Payload, f: Payload, off: nat)
    requires c.chunk > 0 && off < |src| && off <= |f| <= |src|
    ensures var l, g := ChunkAt(c, src, off), WriteAt(f, off, ChunkAt(c, src, off));
      && |g| == (if off + |l| <= |f| then |f| else off + |l|) && off + |l| <= |g| <= |src|
      && f[..off] == g[..off] && ChunkAt(c, g, off) == l
  {
  }

  lemma BeyondWrite(c: Config, src: Payload, f: Payload, off: nat, o: nat)
    requires c.chunk > 0 && off < |src| && off <= |f| <= |src| && off + |ChunkAt(c, src, off)| <= o
    ensures ChunkAt(c, WriteAt(f, off, ChunkAt(c, src, off)), o) == ChunkAt(c, f, o)
  {
    var l := ChunkAt(c, src, off);
    var g := WriteAt(f, off, l);
    if off + |l| <= |f| {
      assert |g| == |f| && g[off + |l|..] == f[off + |l|..];
      forall k | o <= k < |f| ensures g[k] == f[k] {
        assert g[off + |l|..][k - off - |l|] == f[off + |l|..][k - off - |l|];
      }
    }
  }
}
