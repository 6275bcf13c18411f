/** Asking the peer which files a directory holds, over a connection that may go down. */
module FileListing {
  import opened Bytes
  import opened ByteBuffer
  import opened Socket

  datatype Code = Success | NetworkApiError | NetworkConnectionLost

  /** The path is counted by one byte, which keeps its length modulo 256, and follows whole. */
  function RequestPayload(path: Payload): Payload {
    [(|path| % 0x100) as Byte] + path
  }

  /** The path a request asks for. */
  function Asked(payload: Payload): Option<Payload> {
    if payload == [] || |payload| <= payload[0] as int then None
    else Some(payload[1..1 + payload[0] as int])
  }

  /** A request is always well formed, and asks for the path exactly if its length fits the
      byte; of a longer path it asks for a proper prefix. */
  lemma RequestAsks(path: Payload)
    ensures Asked(RequestPayload(path)) == Some(path[..|path| % 0x100])
    ensures Asked(RequestPayload(path)) == Some(path) <==> |path| < 0x100
  {
    assert RequestPayload(path)[1..1 + |path| % 0x100] == path[..|path| % 0x100];
    assert |path| < 0x100 ==> path[..|path|] == path;
  }

  /** The directories of the peer, by path. */
  type Directories = map<Payload, seq<FileInfo>>

  function Reply(dirs: Directories, path: Payload): Payload {
    if path in dirs then EncodeList(dirs[path]) else [0]
  }

  method CreateRequest(path: Payload) returns (packet: Payload)
    ensures packet == Frame(0, RequestPayload(path))
  {
    hide BigEndian;
    var buffer := CreatePacket(0, 1 + |path|);
    var ok := buffer.Write([(|path| % 0x100) as Byte]);
    ok := buffer.Write(path);
    assert buffer.Written() == [0] + BigEndian(0, 8) + RequestPayload(path);
    packet := SealPacket(buffer, 0, RequestPayload(path));
  }

  method SendRequest(s: Socket, path: Payload) returns (code: Code)
    modifies s`grants, s`outgoing
    ensures old(s.outgoing) <= s.outgoing <= old(s.outgoing) + Frame(0, RequestPayload(path))
    ensures code == Success ==> s.outgoing == old(s.outgoing) + Frame(0, RequestPayload(path))
    ensures code != Success ==> code == NetworkConnectionLost && s.Down()
    ensures code == Success <==> |Frame(0, RequestPayload(path))| <= Allowance(old(s.grants))
    ensures Productive(s.grants) + |Frame(0, RequestPayload(path))| >= Productive(old(s.grants))
  {
    hide Allowance, Productive;
    var packet := CreateRequest(path);
    assert packet[..|packet|] == packet;
    var n := s.SendAll(packet);
    FrameNotEmpty(0, RequestPayload(path));
    code := if n == 0 then NetworkConnectionLost else Success;
  }

  /** The answer taken off the stream; `answer` is its payload. */
  method AwaitAnswer(s: Socket, ghost fs: seq<FileInfo>) returns (listing: Listing, ghost answer: Payload)
    modifies s`grants, s`incoming
    ensures listing == ConnectionLost ==> s.Down()
    ensures listing.Listed? || listing.RemoteError? ==> old(s.incoming) == Frame(1, answer) + s.incoming
    ensures listing.Listed? ==> Lists(answer, listing.files)
    ensures listing.RemoteError? ==> |answer| > 0 && answer[0] == 0
    ensures AllFit(fs) && |EncodeList(fs)| < Pow256(8) && Frame(1, EncodeList(fs)) <= old(s.incoming) ==>
      listing == Listed(fs) || listing == ConnectionLost
    ensures Frame(1, [0]) <= old(s.incoming) ==> listing == RemoteError || listing == ConnectionLost
    ensures AllFit(fs) && Comes(old(s.incoming), old(s.grants), 1, EncodeList(fs)) ==> listing == Listed(fs)
    ensures Comes(old(s.incoming), old(s.grants), 1, [0]) ==> listing == RemoteError
  {
    hide Frame, Pow256, EncodeList, Lists, AllFit, Comes, Productive;
    answer := [];
    var r := s.ReadNextPacket(true);
    if r.Lost? {
      return ConnectionLost, [];
    }
    FrontPacket(old(s.incoming), EncodeList(fs), r, s.incoming);
    FrontPacket(old(s.incoming), [0], r, s.incoming);
    SmallFits();
    if r.Refused? || r.op != 1 {
      return ApiError, [];
    }
    answer := r.payload;
    if AllFit(fs) {
      EncodedLists(fs);
    }
    listing := ParseFileList(r.payload, fs);
  }

  lemma SmallFits()
    ensures |[0]| < Pow256(8)
  {
    assert Pow256(8) == 0x100 * Pow256(7);
  }

  /** If a listing packet is in front, it is what a read finds. */
  lemma FrontPacket(s: Payload, payload: Payload, r: Outcome, rest: Payload)
    requires r.Packet? ==> |r.payload| < Pow256(8) && s == Frame(r.op, r.payload) + rest
    requires r.Refused? ==> |s| > 0 && s[0] > 5
    ensures |payload| < Pow256(8) && Frame(1, payload) <= s ==>
      !r.Refused? && (r.Packet? ==> r.op == 1 && r.payload == payload)
  {
    hide Pow256, BigEndian;
    if |payload| < Pow256(8) && Frame(1, payload) <= s {
      assert s[0] == Frame(1, payload)[0] == 1;
      hide Frame;
      var more := s[|Frame(1, payload)|..];
      assert s == Frame(1, payload) + more;
      if r.Packet? {
        FrameSplits(1, payload, more, r.op, r.payload, rest);
      }
    }
  }

  /** Answering a request that was read off the stream. */
  method HandleRequest(s: Socket, payload: Payload, dirs: Directories) returns (code: Code)
    modifies s`grants, s`outgoing
    ensures code == NetworkApiError <==> Asked(payload).None?
    ensures code == NetworkApiError ==> s.outgoing == old(s.outgoing)
    ensures code == Success ==> s.outgoing == old(s.outgoing) + Frame(1, Reply(dirs, Asked(payload).value))
    ensures code == NetworkConnectionLost ==>
      s.Down() && old(s.outgoing) <= s.outgoing <= old(s.outgoing) + Frame(1, Reply(dirs, Asked(payload).value))
    ensures Asked(payload).Some? ==>
      (code == Success <==> |Frame(1, Reply(dirs, Asked(payload).value))| <= Allowance(old(s.grants)))
  {
    hide Frame, EncodeList, Buffer.Unread, Allowance, Productive;
    var buffer := new Buffer.Of(payload);
    var ok, size := buffer.Read(1);
    if !ok {
      return NetworkApiError;
    }
    assert size == [payload[0]];
    var path;
    ok, path := buffer.Read(size[0] as int);
    if !ok {
      return NetworkApiError;
    }
    assert path == payload[1..1 + payload[0] as int];
    var packet := SendFileList(if path in dirs then Some(dirs[path]) else None);
    assert packet[..|packet|] == packet;
    var n := s.SendAll(packet);
    FrameNotEmpty(1, Reply(dirs, path));
    code := if n == 0 then NetworkConnectionLost else Success;
  }

  lemma FrameNotEmpty(op: Byte, payload: Payload)
    ensures Frame(op, payload) != []
  {
  }

  /** One end asks, the other reads and answers, the first reads the answer: unless a connection
      goes down it learns exactly what the directory holds, or that there is none. */
  method AskAndAnswer(a: Socket, b: Socket, path: Payload, dirs: Directories) returns (listing: Listing)
    requires a != b && a.outgoing == [] && b.outgoing == [] && |path| < 0x100
    requires path in dirs ==> AllFit(dirs[path]) && |EncodeList(dirs[path])| < Pow256(8)
    modifies a, b
    ensures listing == ConnectionLost ==> a.Down() || b.Down()
    ensures listing != ConnectionLost ==> listing == if path in dirs then Listed(dirs[path]) else RemoteError
    ensures var n := |Frame(0, RequestPayload(path))| + |Frame(1, Reply(dirs, path))|;
      Productive(old(a.grants)) >= n && Productive(old(b.grants)) >= n ==> listing != ConnectionLost
  {
    hide Frame, EncodeList, Pow256, Lists, AllFit, RequestPayload, Asked, Productive, Allowance, Comes;
    ghost var enough := var n := |Frame(0, RequestPayload(path))| + |Frame(1, Reply(dirs, path))|;
      Productive(a.grants) >= n && Productive(b.grants) >= n;
    ProductiveAllowed(a.grants);
    var code := SendRequest(a, path);
    if code != Success {
      return ConnectionLost;
    }
    b.incoming := a.outgoing;
    RequestAsks(path);
    if enough {
      RequestComes(b.incoming, b.grants, path);
    }
    var r := b.ReadNextPacket(true);
    if r.Lost? {
      return ConnectionLost;
    }
    OnlyPacket(path, r, b.incoming, a.outgoing);
    ProductiveAllowed(b.grants);
    code := HandleRequest(b, r.payload, dirs);
    if code != Success {
      return ConnectionLost;
    }
    a.incoming := b.outgoing;
    if enough {
      SmallFits();
      AnswerComes(a.incoming, a.grants, Reply(dirs, path));
    }
    ghost var answer;
    listing, answer := AwaitAnswer(a, if path in dirs then dirs[path] else []);
  }

  lemma RequestComes(s: Payload, gs: seq<Grant>, path: Payload)
    requires |path| < 0x100 && s == [] + Frame(0, RequestPayload(path)) && Productive(gs) >= |s|
    ensures Comes(s, gs, 0, RequestPayload(path))
  {
    hide Frame, Productive;
    SmallRequest(path);
    assert s == Frame(0, RequestPayload(path));
  }

  lemma SmallRequest(path: Payload)
    requires |path| < 0x100
    ensures |RequestPayload(path)| < Pow256(8)
  {
    assert Pow256(8) == 0x100 * (0x100 * Pow256(6)) && Pow256(6) >= 1 by {
      PowGrows(6);
    }
  }

  lemma AnswerComes(s: Payload, gs: seq<Grant>, payload: Payload)
    requires |payload| < Pow256(8) && s == [] + Frame(1, payload) && Productive(gs) >= |s|
    ensures Comes(s, gs, 1, payload)
  {
    hide Frame, Productive, Pow256;
    assert s == Frame(1, payload);
  }

  lemma OnlyPacket(path: Payload, r: Outcome, rest: Payload, s: Payload)
    requires |path| < 0x100 && s == [] + Frame(0, RequestPayload(path)) && !r.Lost? && !r.Blocked?
    requires r.Packet? ==> |r.payload| < Pow256(8) && s == Frame(r.op, r.payload) + rest
    requires r.Refused? ==> |s| > 0 && s[0] > 5
    ensures r.Packet? && r.op == 0 && r.payload == RequestPayload(path)
  {
    hide BigEndian;
    SmallRequest(path);
    hide Pow256;
    assert s[0] == 0;
    assert s == Frame(0, RequestPayload(path)) + [];
    hide Frame;
    if r.Packet? {
      FrameSplits(0, RequestPayload(path), [], r.op, r.payload, rest);
    }
  }

  lemma {:induction false} PowGrows(k: nat)
    ensures Pow256(k) >= 1
  {
    if k > 0 {
      PowGrows(k - 1);
    }
  }
}
