/** A session as the code runs it: loops that send packets, block for the next one, and write
    the file as they go.  Each is proved to act, packet for packet, as its side of the pair. */
module Session {
  import opened Bytes
  import opened Sync

  datatype Code = Success | RemoteError | ApiError | ConnectionLost | FileNotFound

  /** What a side does with the packets it will be sent: its last state, what it says, and the
      packets it leaves unread.  A side left waiting has lost its connection. */
  datatype Ran<S> = Ran(last: S, out: seq<Msg>, rest: seq<Msg>) {
    function Saying(said: seq<Msg>): Ran<S> {
      Ran(last, said + out, rest)
    }
  }

  function SendRank(pc: SendPc): nat {
    match pc case SHello => 4 case SCompare => 3 case SFull => 2 case STail => 2 case _ => 1
  }

  function SendRun(c: Config, src: Payload, ts: nat, s: Sender, inbox: seq<Msg>): Ran<Sender>
    decreases |inbox|, SendRank(s.pc)
  {
    if s.pc in {SDone, SRefused, SBroken} then Ran(s, [], inbox)
    else if SendWaits(s.pc) then
      if inbox == [] then Ran(s, [], [])
      else var (s', out) := SendRead(c, src, ts, s, inbox[0]); SendRun(c, src, ts, s', inbox[1..]).Saying(out)
    else var (s', out) := SendAct(c, src, ts, s); SendRun(c, src, ts, s', inbox).Saying(out)
  }

  function RecvRank(pc: RecvPc): nat {
    match pc
    case RHello | RCompare | RReadless => 3
    case RFull | RTail | RUnwritten => 2
    case _ => 1
  }

  /** A packet taken in while `disk` says what the coming writes do; those beyond it succeed. */
  function RecvTake(c: Config, r: Receiver, m: Msg, disk: seq<bool>): (Receiver, seq<Msg>, seq<bool>) {
    if !Lands(r, m) || disk == [] then var (r', out) := RecvRead(c, r, m); (r', out, disk)
    else if disk[0] then var (r', out) := RecvRead(c, r, m); (r', out, disk[1..])
    else var (r', out) := RecvFail(r, m); (r', out, disk[1..])
  }

  function RecvRun(c: Config, r: Receiver, inbox: seq<Msg>, disk: seq<bool>): Ran<Receiver>
    decreases |inbox|, RecvRank(r.pc)
  {
    if r.pc in {RDone, RBroken} then Ran(r, [], inbox)
    else if RecvWaits(r) then
      if inbox == [] then Ran(r, [], [])
      else var (r', out, disk') := RecvTake(c, r, inbox[0], disk); RecvRun(c, r', inbox[1..], disk').Saying(out)
    else var (r', out) := RecvAct(r); RecvRun(c, r', inbox, disk).Saying(out)
  }

  function AckCode(inbox: seq<Msg>): Code {
    if inbox == [] then ConnectionLost
    else match inbox[0] case Result(ok) => (if ok then Success else RemoteError) case _ => ApiError
  }

  function Rest(inbox: seq<Msg>): seq<Msg> {
    if inbox == [] then [] else inbox[1..]
  }

  /** What a sender's last state makes of the call's result. */
  predicate SendEnds(code: Code, s: Sender) {
    && (code.Success? <==> s.pc.SDone?) && (code.ConnectionLost? <==> SendWaits(s.pc))
    && (code.RemoteError? <==> s.pc.SRefused?) && (code.ApiError? <==> s.pc.SBroken?)
  }

  predicate RecvEnds(code: Code, r: Receiver) {
    (code.Success? <==> r.pc.RDone?) && (code.ConnectionLost? <==> RecvWaits(r)) && (code.ApiError? <==> r.pc.RBroken?)
  }

  class Session {
    const cfg: Config
    var inbox: seq<Msg>
    var outbox: seq<Msg>
    var file: Option<Payload>
    var disk: seq<bool> // what the coming writes to the file do; those beyond it succeed
    var good: bool      // the file's stream has not failed

    constructor (cfg: Config, inbox: seq<Msg>, file: Option<Payload>, disk: seq<bool>)
      ensures this.cfg == cfg && this.inbox == inbox && outbox == [] && this.file == file && this.disk == disk
    {
      this.cfg, this.inbox, this.outbox, this.file, this.disk, this.good := cfg, inbox, [], file, disk, true;
    }

    method SendFileChunk(off: nat, data: Payload) returns (code: Code)
      modifies `inbox, `outbox
      ensures outbox == old(outbox) + [Chunk(off, data)] && inbox == Rest(old(inbox))
      ensures code == AckCode(old(inbox))
    {
      outbox := outbox + [Chunk(off, data)];
      if inbox == [] {
        return ConnectionLost;
      }
      var m := inbox[0];
      inbox := inbox[1..];
      if !m.Result? {
        return ApiError;
      }
      code := if m.ok then Success else RemoteError;
    }

    method SendFileChunks(src: Payload, size: nat, ts: nat) returns (code: Code)
      requires cfg.chunk > 0
      modifies `inbox, `outbox
      ensures var run := SendRun(cfg, src, 0, SendBegin(src, Sender(SServe, 0, 0, 0), size, ts), old(inbox));
        outbox == old(outbox) + run.out && inbox == run.rest && SendEnds(code, run.last)
    {
      hide SendRun;
      if (size == 0 && ts == 0) || size > |src| {
        code := SendWhole(src, size);
      } else {
        code := SendDelta(src, size);
      }
    }

    method SendWhole(src: Payload, size: nat) returns (code: Code)
      requires cfg.chunk > 0
      modifies `inbox, `outbox
      ensures var run := SendRun(cfg, src, 0, Sender(SFull, size, 0, 0), old(inbox));
        outbox == old(outbox) + run.out && inbox == run.rest && SendEnds(code, run.last)
    {
      hide SendRun, ChunkAt;
      ghost var run := SendRun(cfg, src, 0, Sender(SFull, size, 0, 0), inbox);
      var off := 0;
      while off < |src|
        invariant var now := SendRun(cfg, src, 0, Sender(SFull, size, off, 0), inbox).Saying(outbox);
          now == run.Saying(old(outbox))
      {
        var data := ChunkAt(cfg, src, off);
        SendChunkRun(cfg, src, Sender(SFull, size, off, 0), inbox);
        code := SendFileChunk(off, data);
        if code != Success {
          return;
        }
        off := off + |data|;
      }
      SendDoneRun(cfg, src, Sender(SFull, size, off, 0), inbox);
      code := Success;
    }

    method SendDelta(src: Payload, size: nat) returns (code: Code)
      requires cfg.chunk > 0
      modifies `inbox, `outbox
      ensures var run := SendRun(cfg, src, 0, Sender(SCompare, size, 0, 0), old(inbox));
        outbox == old(outbox) + run.out && inbox == run.rest && SendEnds(code, run.last)
    {
      hide SendRun, ChunkAt, Same;
      ghost var run, said0 := SendRun(cfg, src, 0, Sender(SCompare, size, 0, 0), inbox), outbox;
      ghost var g: nat := 0;
      var rsize: nat, off: nat := size, 0;
      while off < rsize
        invariant SendRun(cfg, src, 0, Sender(SCompare, rsize, off, g), inbox).Saying(outbox) == run.Saying(said0)
        decreases |inbox|
      {
        var data := ChunkAt(cfg, src, off);
        SendHashRun(cfg, src, Sender(SCompare, rsize, off, g), inbox);
        outbox := outbox + [HashOf(off, |data|, cfg.hash(data))];
        if inbox == [] {
          return ConnectionLost;
        }
        var m := inbox[0];
        inbox := inbox[1..];
        if !m.HashOf? || m.off != off {
          return ApiError;
        }
        if |data| != m.size || cfg.hash(data) != m.hash {
          g := m.size;
          SendAnswered(cfg, src, Sender(SCompareAck, rsize, off, g), inbox);
          code := SendFileChunk(off, data);
          if code != Success {
            return;
          }
          if |data| > m.size {
            rsize := rsize + (|data| - m.size);
          }
        }
        off := off + |data|;
      }
      SendTailRun(cfg, src, Sender(SCompare, rsize, off, g), inbox);
      while off < |src|
        invariant SendRun(cfg, src, 0, Sender(STail, rsize, off, g), inbox).Saying(outbox) == run.Saying(said0)
      {
        var data := ChunkAt(cfg, src, off);
        SendChunkRun(cfg, src, Sender(STail, rsize, off, g), inbox);
        code := SendFileChunk(off, data);
        if code != Success {
          return;
        }
        off := off + |data|;
      }
      SendDoneRun(cfg, src, Sender(STail, rsize, off, g), inbox);
      code := Success;
    }

    /** The client's half of a transfer, `up` or down; `source` is the file to upload, and
        nothing is said if there is none. */
    method TransmitFile(source: Option<Payload>, ts: nat, up: bool) returns (code: Code)
      requires cfg.chunk > 0 && (!up ==> ts == Stamp(file, ts))
      modifies `inbox, `outbox, `file, `disk, `good
      ensures up && source.None? ==>
        code == FileNotFound && outbox == old(outbox) && inbox == old(inbox) && file == old(file)
      ensures up && source.Some? ==>
        var run := SendRun(cfg, source.value, ts, Sender(SHello, 0, 0, 0), old(inbox));
        outbox == old(outbox) + run.out && inbox == run.rest && SendEnds(code, run.last) && file == old(file)
      ensures !up ==>
        var run := RecvRun(cfg, Receiver(RHello, old(file), ts, SizeOf(old(file)), 0, 0, 0), old(inbox), old(disk));
        outbox == old(outbox) + run.out && inbox == run.rest && RecvEnds(code, run.last) && file == run.last.file
    {
      hide SendRun, RecvRun;
      if up && source.None? {
        return FileNotFound;
      }
      var src := Content(source);
      var size := if up then |src| else SizeOf(file);
      SendHelloRun(cfg, src, ts, inbox);
      RecvHelloRun(cfg, file, ts, inbox, disk);
      outbox := outbox + [Info(size, ts, up)];
      if inbox == [] {
        return ConnectionLost;
      }
      var m := inbox[0];
      inbox := inbox[1..];
      if !m.Info? {
        return ApiError;
      }
      if up {
        code := SendFileChunks(src, m.size, m.ts);
      } else {
        code := ReceiveFileChunks(size, ts, m.size);
      }
    }

    /** The server's half: the client's announcement names the direction.  Asked for a file it
        does not have, the server says nothing and disconnects. */
    method Serve(source: Option<Payload>, ts: nat) returns (code: Code)
      requires cfg.chunk > 0 && |inbox| > 0 && inbox[0].Info? && (inbox[0].up ==> ts == Stamp(file, ts))
      modifies `inbox, `outbox, `file, `disk, `good
      ensures !old(inbox)[0].up && source.None? ==>
        code == ApiError && outbox == old(outbox) && inbox == old(inbox)[1..] && file == old(file)
      ensures !old(inbox)[0].up && source.Some? ==>
        var run := SendRun(cfg, source.value, ts, Sender(SServe, 0, 0, 0), old(inbox));
        outbox == old(outbox) + run.out && inbox == run.rest && SendEnds(code, run.last) && file == old(file)
      ensures old(inbox)[0].up ==>
        var run := RecvRun(cfg, Receiver(RServe, old(file), ts, SizeOf(old(file)), 0, 0, 0), old(inbox), old(disk));
        outbox == old(outbox) + run.out && inbox == run.rest && RecvEnds(code, run.last) && file == run.last.file
    {
      hide SendRun, RecvRun;
      var src := Content(source);
      SendServeRun(cfg, src, ts, inbox);
      RecvServeRun(cfg, file, ts, inbox, disk);
      var m := inbox[0];
      inbox := inbox[1..];
      if m.up {
        outbox := outbox + [Info(SizeOf(file), ts, true)];
        code := ReceiveFileChunks(SizeOf(file), ts, m.size);
      } else {
        if source.None? {
          return ApiError;
        }
        outbox := outbox + [Info(|src|, ts, false)];
        code := SendFileChunks(src, m.size, m.ts);
      }
    }

    /** The next write to the stream. */
    method Write(off: nat, data: Payload)
      requires file.Some?
      modifies `file, `disk, `good
      ensures good == (old(disk) == [] || old(disk)[0])
      ensures disk == if old(disk) == [] then [] else old(disk)[1..]
      ensures file == if good then Some(WriteAt(old(file).value, off, data)) else old(file)
    {
      good := true;
      if disk != [] {
        good, disk := disk[0], disk[1..];
      }
      if good {
        file := Some(WriteAt(file.value, off, data));
      }
    }

    /** `checked` tells the comparing loop's way of writing, which clears the stream first and
        reports a failure, from that of the loop over the whole file, which does neither. */
    method ReceiveFileChunk(checked: bool) returns (code: Code, off: nat, size: nat)
      requires file.Some?
      modifies `inbox, `outbox, `file, `disk, `good
      ensures inbox == Rest(old(inbox))
      ensures if |old(inbox)| > 0 && old(inbox)[0].Chunk?
        then
          var tries := checked || old(good);
          code == Success && off == old(inbox)[0].off && size == |old(inbox)[0].data|
          && good == (tries && (old(disk) == [] || old(disk)[0]))
          && disk == (if tries && old(disk) != [] then old(disk)[1..] else old(disk))
          && file == (if good then Some(WriteAt(old(file).value, off, old(inbox)[0].data)) else old(file))
          && outbox == old(outbox) + [Result(!checked || good)]
        else
          code == (if old(inbox) == [] then ConnectionLost else ApiError)
          && file == old(file) && outbox == old(outbox) && disk == old(disk) && good == old(good)
    {
      off, size := 0, 0;
      if inbox == [] {
        return ConnectionLost, off, size;
      }
      var m := inbox[0];
      inbox := inbox[1..];
      if !m.Chunk? {
        return ApiError, off, size;
      }
      if checked || good {
        Write(m.off, m.data);
      }
      outbox := outbox + [Result(!checked || good)];
      code, off, size := Success, m.off, |m.data|;
    }

    /** `size` and `ts` are what the file system said of this side's copy, `rsize` what the
        other side announced of the source. */
    method ReceiveFileChunks(size: nat, ts: nat, rsize: nat) returns (code: Code)
      modifies `inbox, `outbox, `file, `disk, `good
      requires ts == Stamp(file, ts) && size == SizeOf(file)
      ensures var r := RecvBegin(Receiver(RServe, old(file), ts, size, 0, 0, 0), rsize);
        var run := RecvRun(cfg, r, old(inbox), old(disk));
        outbox == old(outbox) + run.out && inbox == run.rest && file == run.last.file && RecvEnds(code, run.last)
    {
      hide RecvRun;
      good := true;
      if (size == 0 && ts == 0) || size > rsize {
        file := Some([]);
        code := ReceiveRest(0, rsize, false, Receiver(RFull, file, ts, size, rsize, 0, 0));
      } else {
        code := ReceiveDelta(size, rsize, ts);
      }
    }

    /** The loop that takes every remaining chunk: the whole file's, or its tail's. */
    method ReceiveRest(start: nat, rsize: nat, checked: bool, ghost r: Receiver) returns (code: Code)
      requires r.pc == (if checked then RTail else RFull) && (checked || good)
      requires r.off == start && r.rsize == rsize && r.file == file && file.Some?
      modifies `inbox, `outbox, `file, `disk, `good
      ensures var run := RecvRun(cfg, r, old(inbox), old(disk));
        outbox == old(outbox) + run.out && inbox == run.rest && file == run.last.file && RecvEnds(code, run.last)
    {
      hide RecvRun, WriteAt;
      ghost var run, said0, now := RecvRun(cfg, r, inbox, disk), outbox, r;
      var off := start;
      while off < rsize
        invariant now.pc == if checked then RTail else if good then RFull else RUnwritten
        invariant now.off == off && now.rsize == rsize && now.file == file && file.Some?
        invariant RecvRun(cfg, now, inbox, disk).Saying(outbox) == run.Saying(said0)
        decreases |inbox|
      {
        RecvChunkRun(cfg, now, inbox, disk);
        ghost var next := if inbox == [] then now else RecvTake(cfg, now, inbox[0], disk).0;
        var o, n;
        code, o, n := ReceiveFileChunk(checked);
        if code != Success {
          return;
        }
        off := off + n;
        now := next;
      }
      RecvDoneRun(cfg, now, inbox, disk);
      code := Success;
    }

    /** A chunk of which this side has a different one, `had` bytes long. */
    method ReceiveDiffering(had: nat, lsize: nat, ghost r: Receiver)
      returns (code: Code, n: nat, grown: nat, ghost next: Receiver)
      requires r.pc.RCompareChunk? && r.file == file && file.Some? && r.lchunk == had && r.lsize == lsize
      modifies `inbox, `outbox, `file, `disk, `good
      ensures var run := RecvRun(cfg, r, old(inbox), old(disk));
        if code.Success? then
          && file.Some? && |inbox| < |old(inbox)|
          && next == Receiver(if good then RCompare else RReadless, file, r.ts, grown, r.rsize, r.off + n, had)
          && RecvRun(cfg, next, inbox, disk).Saying(outbox) == run.Saying(old(outbox))
        else outbox == old(outbox) + run.out && inbox == run.rest && file == run.last.file && RecvEnds(code, run.last)
    {
      hide RecvRun, RecvTake, WriteAt, ChunkAt;
      RecvMissRun(cfg, r, inbox, disk);
      MissTaken(cfg, r, inbox, disk);
      next := if inbox == [] then r else RecvTake(cfg, r, inbox[0], disk).0;
      var o;
      code, o, n := ReceiveFileChunk(true);
      grown := if n > had then lsize + (n - had) else lsize;
    }

    method ReceiveDelta(size: nat, rsize: nat, ghost ts: nat) returns (code: Code)
      requires file.Some? && good
      modifies `inbox, `outbox, `file, `disk, `good
      ensures var run := RecvRun(cfg, Receiver(RCompare, old(file), ts, size, rsize, 0, 0), old(inbox), old(disk));
        outbox == old(outbox) + run.out && inbox == run.rest && file == run.last.file && RecvEnds(code, run.last)
    {
      hide RecvRun, RecvTake, WriteAt, ChunkAt;
      ghost var said0, now := outbox, Receiver(RCompare, file, ts, size, rsize, 0, 0);
      ghost var run := RecvRun(cfg, now, inbox, disk);
      var lsize: nat, off: nat := size, 0;
      while off < lsize
        invariant file.Some?
        invariant now == Receiver(if good then RCompare else RReadless, file, ts, lsize, rsize, off, now.lchunk)
        invariant RecvRun(cfg, now, inbox, disk).Saying(outbox) == run.Saying(said0)
        decreases |inbox|
      {
        var data := if good then ChunkAt(cfg, file.value, off) else [];
        RecvHashRun(cfg, now, inbox, disk);
        if inbox == [] {
          return ConnectionLost;
        }
        var m := inbox[0];
        inbox := inbox[1..];
        if !m.HashOf? {
          return ApiError;
        }
        outbox := outbox + [HashOf(off, |data|, cfg.hash(data))];
        if m.off != off {
          return ApiError;
        }
        var n := m.size;
        if |data| != m.size || cfg.hash(data) != m.hash {
          now := now.(pc := RCompareChunk, lchunk := |data|);
          code, n, lsize, now := ReceiveDiffering(|data|, lsize, now);
          if code != Success {
            return;
          }
          off := off + n;
        } else {
          off := off + n;
          now := now.(off := off);
        }
      }
      RecvTailRun(cfg, now, inbox, disk);
      code := ReceiveRest(off, rsize, true, now.(pc := RTail));
    }
  }

  // ---------------------------------------------------------------- any peer

  predicate AwaitsAnswer(pc: SendPc) {
    pc in {SFullAck, SCompareAck, STailAck}
  }

  /** Which message a sender breaks off on, and saying nothing more. */
  lemma SendHeeds(c: Config, src: Payload, ts: nat, s: Sender, m: Msg)
    requires SendWaits(s.pc)
    ensures var (s', out) := SendRead(c, src, ts, s, m);
      && (s'.pc.SRefused? <==> AwaitsAnswer(s.pc) && m == Result(false))
      && (s'.pc.SBroken? <==>
            match m
            case Info(_, _, up) => s.pc !in {SWaitInfo, SServe} || (s.pc.SServe? && up)
            case HashOf(off, _, _) => !s.pc.SCompareHash? || off != s.off
            case Chunk(_, _) => true
            case Result(_) => !AwaitsAnswer(s.pc))
      && (s'.pc in {SRefused, SBroken} ==> out == [])
  {
  }

  /** Which message a receiver breaks off on; a hash under the wrong offset is answered first. */
  lemma RecvHeeds(c: Config, r: Receiver, m: Msg)
    requires RecvWaits(r)
    ensures var (r', out) := RecvRead(c, r, m);
      && (r'.pc.RBroken? <==>
            match m
            case Info(_, _, up) => r.pc !in {RWaitInfo, RServe} || (r.pc.RServe? && !up)
            case HashOf(off, _, _) => r.pc !in {RCompare, RReadless} || off != r.off
            case Chunk(_, _) => r.pc !in {RFull, RUnwritten, RCompareChunk, RTail}
            case Result(_) => true)
      && (r'.pc.RBroken? ==> r'.file == r.file && |out| == if r.pc in {RCompare, RReadless} && m.HashOf? then 1 else 0)
  {
  }

  /** The packet a run took in last. */
  function LastRead(inbox: seq<Msg>, rest: seq<Msg>): Option<Msg> {
    if |rest| < |inbox| then Some(inbox[|inbox| - |rest| - 1]) else None
  }

  /** With any peer, sending fails with the remote error exactly if the last packet was a negative
      answer to a chunk, the last thing said. */
  lemma {:induction false} RefusedExactly(c: Config, src: Payload, ts: nat, s: Sender, inbox: seq<Msg>)
    requires s.pc !in {SDone, SRefused, SBroken}
    ensures var run := SendRun(c, src, ts, s, inbox);
      && |run.rest| <= |inbox| && run.rest == inbox[|inbox| - |run.rest|..]
      && (!SendWaits(s.pc) && run.out == [] ==> run.rest == inbox)
      && (run.last.pc.SRefused? <==>
            && LastRead(inbox, run.rest) == Some(Result(false))
            && if run.out == [] then AwaitsAnswer(s.pc) else run.out[|run.out| - 1].Chunk?)
    decreases |inbox|, SendRank(s.pc)
  {
    hide ChunkAt;
    if SendWaits(s.pc) && inbox != [] {
      SendHeeds(c, src, ts, s, inbox[0]);
      var s' := SendRead(c, src, ts, s, inbox[0]).0;
      if s'.pc !in {SDone, SRefused, SBroken} {
        RefusedExactly(c, src, ts, s', inbox[1..]);
      }
    } else if !SendWaits(s.pc) {
      var s' := SendAct(c, src, ts, s).0;
      if s'.pc !in {SDone, SRefused, SBroken} {
        RefusedExactly(c, src, ts, s', inbox);
      }
    }
  }

  /** One round of a loop that sends chunks: the chunk, then whatever the answer leads to. */
  lemma SendChunkRun(c: Config, src: Payload, s: Sender, inbox: seq<Msg>)
    requires s.pc in {SFull, STail} && s.off < |src|
    ensures var said := [Chunk(s.off, ChunkAt(c, src, s.off))];
      var run, code := SendRun(c, src, 0, s, inbox), AckCode(inbox);
      if code.Success?
      then run == SendRun(c, src, 0, s.(off := s.off + |ChunkAt(c, src, s.off)|), Rest(inbox)).Saying(said)
      else (run.out == said && run.rest == Rest(inbox) && SendEnds(code, run.last))
  {
    hide SendRun, ChunkAt;
    var w := s.(pc := if s.pc.SFull? then SFullAck else STailAck);
    SendSays(c, src, s, inbox);
    SendAnswered(c, src, w, inbox);
  }

  lemma SendSays(c: Config, src: Payload, s: Sender, inbox: seq<Msg>)
    requires s.pc in {SFull, STail} && s.off < |src|
    ensures SendRun(c, src, 0, s, inbox) ==
      SendRun(c, src, 0, s.(pc := if s.pc.SFull? then SFullAck else STailAck), inbox).Saying(
        [Chunk(s.off, ChunkAt(c, src, s.off))])
  {
    hide ChunkAt;
  }

  /** The answer to a chunk, in any of the three loops. */
  lemma SendAnswered(c: Config, src: Payload, s: Sender, inbox: seq<Msg>)
    requires s.pc in {SFullAck, SCompareAck, STailAck}
    ensures var code, run := AckCode(inbox), SendRun(c, src, 0, s, inbox);
      if code.Success? then run == SendRun(c, src, 0, SendRead(c, src, 0, s, Result(true)).0, Rest(inbox))
      else run.out == [] && run.rest == Rest(inbox) && SendEnds(code, run.last)
  {
    hide SendRun, ChunkAt;
    SendReads(c, src, s, inbox);
    if inbox != [] {
      SendStops(c, src, SendRead(c, src, 0, s, inbox[0]).0, inbox[1..]);
    }
  }

  lemma SendStops(c: Config, src: Payload, s: Sender, inbox: seq<Msg>)
    ensures s.pc in {SDone, SRefused, SBroken} ==> SendRun(c, src, 0, s, inbox) == Ran(s, [], inbox)
    ensures SendWaits(s.pc) && inbox == [] ==> SendRun(c, src, 0, s, inbox) == Ran(s, [], inbox)
  {
  }

  /** A side that waits reads the next packet, if there is one. */
  lemma SendReads(c: Config, src: Payload, s: Sender, inbox: seq<Msg>)
    requires SendWaits(s.pc)
    ensures inbox == [] ==> SendRun(c, src, 0, s, inbox) == Ran(s, [], [])
    ensures inbox != [] ==>
      var (s', out) := SendRead(c, src, 0, s, inbox[0]);
      SendRun(c, src, 0, s, inbox) == SendRun(c, src, 0, s', inbox[1..]).Saying(out)
  {
  }

  lemma RecvReads(c: Config, r: Receiver, inbox: seq<Msg>, disk: seq<bool>)
    requires RecvWaits(r)
    ensures inbox == [] ==> RecvRun(c, r, inbox, disk) == Ran(r, [], [])
    ensures inbox != [] ==>
      var (r', out, disk') := RecvTake(c, r, inbox[0], disk);
      RecvRun(c, r, inbox, disk) == RecvRun(c, r', inbox[1..], disk').Saying(out)
  {
    hide RecvTake;
  }

  lemma RecvStops(c: Config, r: Receiver, inbox: seq<Msg>, disk: seq<bool>)
    ensures r.pc in {RDone, RBroken} ==> RecvRun(c, r, inbox, disk) == Ran(r, [], inbox)
  {
  }

  lemma SendDoneRun(c: Config, src: Payload, s: Sender, inbox: seq<Msg>)
    requires s.pc in {SFull, STail} && s.off >= |src|
    ensures SendRun(c, src, 0, s, inbox) == Ran(s.(pc := SDone), [], inbox)
  {
  }

  lemma SendHashRun(c: Config, src: Payload, s: Sender, inbox: seq<Msg>)
    requires s.pc.SCompare? && s.off < s.rsize
    ensures var l := ChunkAt(c, src, s.off); var said := [HashOf(s.off, |l|, c.hash(l))];
      var run := SendRun(c, src, 0, s, inbox);
      if inbox != [] && inbox[0].HashOf? && inbox[0].off == s.off then
        run == SendRun(c, src, 0,
                       if |l| != inbox[0].size || c.hash(l) != inbox[0].hash
                       then s.(pc := SCompareAck, rchunk := inbox[0].size)
                       else s.(off := s.off + |l|), Rest(inbox)).Saying(
                 said + if |l| != inbox[0].size || c.hash(l) != inbox[0].hash then [Chunk(s.off, l)] else [])
      else (run.out == said && run.rest == Rest(inbox)
        && SendEnds(if inbox == [] then ConnectionLost else ApiError, run.last))
  {
    hide ChunkAt;
    var w := s.(pc := SCompareHash);
    SendStops(c, src, w, inbox);
    if inbox != [] {
      SendStops(c, src, SendRead(c, src, 0, w, inbox[0]).0, inbox[1..]);
    }
  }

  lemma SendTailRun(c: Config, src: Payload, s: Sender, inbox: seq<Msg>)
    requires s.pc.SCompare? && s.off >= s.rsize
    ensures SendRun(c, src, 0, s, inbox) == SendRun(c, src, 0, s.(pc := STail), inbox)
  {
  }

  lemma RecvChunkRun(c: Config, r: Receiver, inbox: seq<Msg>, disk: seq<bool>)
    requires r.pc in {RFull, RTail, RUnwritten} && r.off < r.rsize
    ensures var run := RecvRun(c, r, inbox, disk);
      if inbox != [] && inbox[0].Chunk? then
        var (r', out, disk') := RecvTake(c, r, inbox[0], disk);
        run == RecvRun(c, r', Rest(inbox), disk').Saying(out)
      else (run.out == [] && run.rest == Rest(inbox) && run.last.file == r.file
        && RecvEnds(if inbox == [] then ConnectionLost else ApiError, run.last))
  {
    hide RecvRun, WriteAt, ChunkAt;
    RecvReads(c, r, inbox, disk);
    if inbox != [] {
      RecvStops(c, RecvRead(c, r, inbox[0]).0, inbox[1..], disk);
    }
  }

  lemma RecvDoneRun(c: Config, r: Receiver, inbox: seq<Msg>, disk: seq<bool>)
    requires r.pc in {RFull, RTail, RUnwritten} && r.off >= r.rsize
    ensures RecvRun(c, r, inbox, disk) == Ran(r.(pc := RDone), [], inbox)
  {
  }

  lemma RecvTailRun(c: Config, r: Receiver, inbox: seq<Msg>, disk: seq<bool>)
    requires r.pc in {RCompare, RReadless} && r.off >= r.lsize
    ensures RecvRun(c, r, inbox, disk) == RecvRun(c, r.(pc := RTail), inbox, disk)
  {
  }

  lemma RecvHashRun(c: Config, r: Receiver, inbox: seq<Msg>, disk: seq<bool>)
    requires r.pc in {RCompare, RReadless} && r.off < r.lsize
    ensures var mine := if r.pc.RReadless? then [] else ChunkAt(c, Content(r.file), r.off);
      var run, said := RecvRun(c, r, inbox, disk), [HashOf(r.off, |mine|, c.hash(mine))];
      if inbox != [] && inbox[0].HashOf? && inbox[0].off == r.off then
        run == RecvRun(c, if |mine| != inbox[0].size || c.hash(mine) != inbox[0].hash
                          then r.(pc := RCompareChunk, lchunk := |mine|)
                          else r.(off := r.off + inbox[0].size), Rest(inbox), disk).Saying(said)
      else (run.out == (if inbox != [] && inbox[0].HashOf? then said else []) && run.rest == Rest(inbox)
            && run.last.file == r.file
        && RecvEnds(if inbox == [] then ConnectionLost else ApiError, run.last))
  {
    hide RecvRun, WriteAt, ChunkAt;
    RecvReads(c, r, inbox, disk);
    if inbox != [] {
      RecvStops(c, RecvRead(c, r, inbox[0]).0, inbox[1..], disk);
    }
  }

  lemma RecvMissRun(c: Config, r: Receiver, inbox: seq<Msg>, disk: seq<bool>)
    requires r.pc.RCompareChunk?
    ensures var run := RecvRun(c, r, inbox, disk);
      if inbox != [] && inbox[0].Chunk? then
        var (r', out, disk') := RecvTake(c, r, inbox[0], disk);
        run == RecvRun(c, r', Rest(inbox), disk').Saying(out)
      else (run.out == [] && run.rest == Rest(inbox) && run.last.file == r.file
        && RecvEnds(if inbox == [] then ConnectionLost else ApiError, run.last))
  {
    hide RecvRun, WriteAt, ChunkAt;
    RecvReads(c, r, inbox, disk);
    if inbox != [] {
      RecvStops(c, RecvRead(c, r, inbox[0]).0, inbox[1..], disk);
    }
  }

  /** What a chunk that differed does, according to its write. */
  lemma MissTaken(c: Config, r: Receiver, inbox: seq<Msg>, disk: seq<bool>)
    requires r.pc.RCompareChunk? && r.file.Some?
    ensures inbox != [] && inbox[0].Chunk? ==>
      var off, data, good := inbox[0].off, inbox[0].data, disk == [] || disk[0];
      var grown := if |data| > r.lchunk then r.lsize + (|data| - r.lchunk) else r.lsize;
      && RecvTake(c, r, inbox[0], disk).0 ==
           Receiver(if good then RCompare else RReadless,
                    if good then Some(WriteAt(r.file.value, off, data)) else r.file,
                    r.ts, grown, r.rsize, r.off + |data|, r.lchunk)
      && RecvTake(c, r, inbox[0], disk).1 == [Result(good)]
      && RecvTake(c, r, inbox[0], disk).2 == if disk == [] then disk else disk[1..]
  {
    hide WriteAt;
  }

  /** Once both announcements are exchanged a sender's timestamp no longer matters. */
  lemma {:induction false} StampUnused(c: Config, src: Payload, ts: nat, s: Sender, inbox: seq<Msg>)
    requires s.pc !in {SHello, SWaitInfo, SServe}
    ensures SendRun(c, src, ts, s, inbox) == SendRun(c, src, 0, s, inbox)
    decreases |inbox|, SendRank(s.pc)
  {
    hide ChunkAt;
    if s.pc in {SDone, SRefused, SBroken} || (SendWaits(s.pc) && inbox == []) {
    } else if SendWaits(s.pc) {
      StampUnused(c, src, ts, SendRead(c, src, 0, s, inbox[0]).0, inbox[1..]);
    } else {
      StampUnused(c, src, ts, SendAct(c, src, 0, s).0, inbox);
    }
  }

  lemma SendHelloRun(c: Config, src: Payload, ts: nat, inbox: seq<Msg>)
    ensures var run, said := SendRun(c, src, ts, Sender(SHello, 0, 0, 0), inbox), [Info(|src|, ts, true)];
      if inbox != [] && inbox[0].Info? then
        run == SendRun(c, src, 0, SendBegin(src, Sender(SServe, 0, 0, 0), inbox[0].size, inbox[0].ts),
                       inbox[1..]).Saying(said)
      else (run.out == said && run.rest == Rest(inbox)
            && SendEnds(if inbox == [] then ConnectionLost else ApiError, run.last))
  {
    hide ChunkAt;
    var w := Sender(SWaitInfo, 0, 0, 0);
    if inbox != [] {
      var s := SendRead(c, src, ts, w, inbox[0]).0;
      StampUnused(c, src, ts, s, inbox[1..]);
      SendStops(c, src, s, inbox[1..]);
    }
  }

  lemma SendServeRun(c: Config, src: Payload, ts: nat, inbox: seq<Msg>)
    requires |inbox| > 0 && inbox[0].Info?
    ensures var run := SendRun(c, src, ts, Sender(SServe, 0, 0, 0), inbox);
      !inbox[0].up ==>
        run == SendRun(c, src, 0, SendBegin(src, Sender(SServe, 0, 0, 0), inbox[0].size, inbox[0].ts),
                       inbox[1..]).Saying([Info(|src|, ts, false)])
  {
    hide ChunkAt;
    if !inbox[0].up {
      StampUnused(c, src, ts, SendBegin(src, Sender(SServe, 0, 0, 0), inbox[0].size, inbox[0].ts), inbox[1..]);
    }
  }

  lemma RecvHelloRun(c: Config, file: Option<Payload>, ts: nat, inbox: seq<Msg>, disk: seq<bool>)
    ensures var run := RecvRun(c, Receiver(RHello, file, ts, SizeOf(file), 0, 0, 0), inbox, disk);
      var said := [Info(SizeOf(file), Stamp(file, ts), false)];
      if inbox != [] && inbox[0].Info? then
        run == RecvRun(c, RecvBegin(Receiver(RServe, file, ts, SizeOf(file), 0, 0, 0), inbox[0].size),
                       inbox[1..], disk).Saying(said)
      else (run.out == said && run.rest == Rest(inbox) && run.last.file == file
            && RecvEnds(if inbox == [] then ConnectionLost else ApiError, run.last))
  {
    hide ChunkAt, WriteAt;
    if inbox != [] && !inbox[0].Info? {
      var r := RecvRead(c, Receiver(RWaitInfo, file, ts, SizeOf(file), 0, 0, 0), inbox[0]).0;
      assert RecvRun(c, r, inbox[1..], disk) == Ran(r, [], inbox[1..]);
    }
  }

  lemma RecvServeRun(c: Config, file: Option<Payload>, ts: nat, inbox: seq<Msg>, disk: seq<bool>)
    requires |inbox| > 0 && inbox[0].Info?
    ensures var run := RecvRun(c, Receiver(RServe, file, ts, SizeOf(file), 0, 0, 0), inbox, disk);
      inbox[0].up ==>
        run == RecvRun(c, RecvBegin(Receiver(RServe, file, ts, SizeOf(file), 0, 0, 0), inbox[0].size),
                       inbox[1..], disk).Saying(
                 [Info(SizeOf(file), Stamp(file, ts), true)])
  {
    hide ChunkAt, WriteAt;
  }
}
