/** The packets of a transfer as bytes: what one session says arrives at the other, message for
    message, over sockets that move the bytes as they please. */
module Messages {
  import opened Bytes
  import opened Sync
  import opened ByteBuffer
  import opened Socket

  /** The compression of chunks, which loses nothing. */
  datatype Zip = Zip(pack: Payload -> Payload, unpack: Payload -> Payload)

  ghost predicate Lossless(z: Zip) {
    forall p :: z.unpack(z.pack(p)) == p
  }

  function OpOf(m: Msg): Byte {
    match m
    case Info(_, _, _) => 2
    case HashOf(_, _, _) => 3
    case Chunk(_, _) => 4
    case Result(_) => 5
  }

  /** `path` is the path that every announcement of the transfer names. */
  function Body(z: Zip, path: Payload, m: Msg): Payload {
    match m
    case Info(size, ts, up) => EncodeFile(FileInfo(path, size, ts)) + [if up then 0 else 1]
    case HashOf(off, size, hash) => BigEndian(off, 8) + (BigEndian(size, 8) + (BigEndian(hash, 8) + []))
    case Chunk(off, data) =>
      BigEndian(off, 8) + (BigEndian(|data|, 8) + (BigEndian(|z.pack(data)|, 8) + (z.pack(data) + [])))
    case Result(ok) => [if ok then 1 else 0]
  }

  /** The numbers fit the bytes they are given. */
  predicate Fitting(z: Zip, path: Payload, m: Msg) {
    && |Body(z, path, m)| < Pow256(8)
    && match m
       case Info(size, ts, _) => Fits(FileInfo(path, size, ts))
       case HashOf(off, size, hash) => off < Pow256(8) && size < Pow256(8) && hash < Pow256(8)
       case Chunk(off, data) => off < Pow256(8) && |data| < Pow256(8) && |z.pack(data)| < Pow256(8)
       case Result(_) => true
  }

  /** Where the parts of a message stand. */
  lemma Layout(z: Zip, path: Payload, m: Msg)
    requires Fitting(z, path, m)
    ensures var b := Body(z, path, m);
      match m
      case Info(size, ts, up) =>
        && |b| == |path| + 14 && b[0] == |path| && b[1..1 + |path|] == path
        && FromBigEndian(b[1 + |path|..9 + |path|]) == size && FromBigEndian(b[9 + |path|..13 + |path|]) == ts
        && b[13 + |path|] == if up then 0 else 1
      case HashOf(off, size, hash) =>
        && |b| == 24 && FromBigEndian(b[..8]) == off && FromBigEndian(b[8..16]) == size
        && FromBigEndian(b[16..]) == hash
      case Chunk(off, data) =>
        && |b| >= 24 && FromBigEndian(b[..8]) == off && FromBigEndian(b[8..16]) == |data|
        && FromBigEndian(b[16..24]) == |b| - 24 && b[24..] == z.pack(data)
      case Result(ok) => b == [if ok then 1 else 0]
  {
    hide BigEndian, FromBigEndian, EncodeFile, Pow256;
    match m
    case Info(size, ts, up) =>
      EntryLayout(FileInfo(path, size, ts));
      var e, b := EncodeFile(FileInfo(path, size, ts)), Body(z, path, m);
      assert b[1..1 + |path|] == e[1..1 + |path|] && b[9 + |path|..13 + |path|] == e[9 + |path|..];
      assert b[1 + |path|..9 + |path|] == e[1 + |path|..9 + |path|];
    case HashOf(off, size, hash) =>
      ThreeNumbers(off, size, hash, []);
      var b := Body(z, path, m);
      assert b[16..24] == b[16..];
    case Chunk(off, data) =>
      ThreeNumbers(off, |data|, |z.pack(data)|, z.pack(data) + []);
      assert z.pack(data) + [] == z.pack(data);
    case Result(ok) =>
  }

  lemma ThreeNumbers(a: nat, b: nat, c: nat, rest: Payload)
    requires a < Pow256(8) && b < Pow256(8) && c < Pow256(8)
    ensures var s := BigEndian(a, 8) + (BigEndian(b, 8) + (BigEndian(c, 8) + rest));
      && FromBigEndian(s[..8]) == a && FromBigEndian(s[8..16]) == b && FromBigEndian(s[16..24]) == c
      && s[24..] == rest
  {
    NumberRoundTrip(a, 8);
    NumberRoundTrip(b, 8);
    NumberRoundTrip(c, 8);
    hide BigEndian, FromBigEndian, Pow256;
    Eights(BigEndian(a, 8), BigEndian(b, 8), BigEndian(c, 8), rest);
  }

  lemma Eights(a: Payload, b: Payload, c: Payload, rest: Payload)
    requires |a| == |b| == |c| == 8
    ensures var s := a + (b + (c + rest));
      s[..8] == a && s[8..16] == b && s[16..24] == c && s[24..] == rest
  {
    var tail := c + rest;
    assert tail[..8] == c && tail[8..] == rest;
    var more := b + tail;
    assert more[..8] == b && more[8..16] == tail[..8] && more[16..] == tail[8..];
    var s := a + more;
    assert s[..8] == a && s[8..16] == more[..8] && s[16..24] == more[8..16] && s[24..] == more[16..];
  }

  // ---------------------------------------------------------------- reading

  /** A number that, if the bytes begin with `n'` and `rest`, is `n'`. */
  method TakeNumber(buffer: Buffer, k: nat, ghost n': nat, ghost rest: Payload) returns (ok: bool, n: nat)
    requires buffer.Valid()
    modifies buffer`offsetR
    ensures buffer.Valid()
    ensures n' < Pow256(k) && old(buffer.Unread()) == BigEndian(n', k) + rest ==>
      ok && n == n' && buffer.Unread() == rest
  {
    hide BigEndian, FromBigEndian, Pow256;
    ghost var d := buffer.Unread();
    ok, n := buffer.ReadNumber(k);
    if ok && n' < Pow256(k) && d == BigEndian(n', k) + rest {
      NumberSplits(n, k, buffer.Unread(), n', rest);
    }
  }

  method TakeBytes(buffer: Buffer, size: nat, ghost b: Payload, ghost rest: Payload) returns (ok: bool, bytes: Payload)
    requires buffer.Valid()
    modifies buffer`offsetR
    ensures buffer.Valid() && (ok ==> |bytes| == size)
    ensures size == |b| && old(buffer.Unread()) == b + rest ==> ok && bytes == b && buffer.Unread() == rest
  {
    ghost var d := buffer.Unread();
    ok, bytes := buffer.Read(size);
    if ok && size == |b| && d == b + rest {
      ByteBuffer.Same(bytes, buffer.Unread(), b, rest);
    }
  }

  method UnpackInfo(buffer: Buffer, ghost z: Zip, ghost path: Payload, ghost m: Msg) returns (got: Option<Msg>)
    requires buffer.Valid()
    modifies buffer`offsetR
    ensures m.Info? && Fitting(z, path, m) && old(buffer.Unread()) == Body(z, path, m) ==> got == Some(m)
  {
    hide EncodeFile, Fits, Pow256, Buffer.Unread;
    ghost var good := m.Info? && Fitting(z, path, m) && buffer.Unread() == Body(z, path, m);
    ghost var file' := if good then FileInfo(path, m.size, m.ts) else FileInfo([], 0, 0);
    ghost var way: Payload := [if good && m.up then 0 else 1];
    var ok, file := ReadFile(buffer, file', way);
    var last := [];
    if ok {
      assert way + [] == way;
      ok, last := TakeBytes(buffer, 1, way, []);
    }
    got := if ok then Some(Info(file.size, file.ts, last[0] == 0)) else None;
  }

  method UnpackHash(buffer: Buffer, ghost z: Zip, ghost path: Payload, ghost m: Msg) returns (got: Option<Msg>)
    requires buffer.Valid()
    modifies buffer`offsetR
    ensures m.HashOf? && Fitting(z, path, m) && old(buffer.Unread()) == Body(z, path, m) ==> got == Some(m)
  {
    hide BigEndian, Pow256, Buffer.Unread;
    ghost var good := m.HashOf? && Fitting(z, path, m) && buffer.Unread() == Body(z, path, m);
    ghost var g := if good then m else HashOf(0, 0, 0);
    ghost var e3 := BigEndian(g.hash, 8) + [];
    ghost var e2 := BigEndian(g.size, 8) + e3;
    var off, size, hash := 0, 0, 0;
    var ok;
    ok, off := TakeNumber(buffer, 8, g.off, e2);
    if ok {
      ok, size := TakeNumber(buffer, 8, g.size, e3);
    }
    if ok {
      ok, hash := TakeNumber(buffer, 8, g.hash, []);
    }
    got := if ok then Some(HashOf(off, size, hash)) else None;
  }

  method UnpackChunk(buffer: Buffer, z: Zip, ghost path: Payload, ghost m: Msg) returns (got: Option<Msg>)
    requires buffer.Valid() && Lossless(z)
    modifies buffer`offsetR
    ensures m.Chunk? && Fitting(z, path, m) && old(buffer.Unread()) == Body(z, path, m) ==> got == Some(m)
  {
    hide BigEndian, Pow256, Buffer.Unread;
    ghost var good := m.Chunk? && Fitting(z, path, m) && buffer.Unread() == Body(z, path, m);
    ghost var g := if good then m else Chunk(0, []);
    ghost var packed := z.pack(g.data);
    ghost var e4 := packed + [];
    ghost var e3 := BigEndian(|packed|, 8) + e4;
    ghost var e2 := BigEndian(|g.data|, 8) + e3;
    var off, size, n, bytes := 0, 0, 0, [];
    var ok;
    ok, off := TakeNumber(buffer, 8, g.off, e2);
    if ok {
      ok, size := TakeNumber(buffer, 8, |g.data|, e3);
    }
    if ok {
      ok, n := TakeNumber(buffer, 8, |packed|, e4);
    }
    if ok {
      ok, bytes := TakeBytes(buffer, n, packed, []);
    }
    got := if ok then Some(Chunk(off, z.unpack(bytes))) else None;
  }

  method UnpackResult(buffer: Buffer, ghost z: Zip, ghost path: Payload, ghost m: Msg) returns (got: Option<Msg>)
    requires buffer.Valid()
    modifies buffer`offsetR
    ensures m.Result? && old(buffer.Unread()) == Body(z, path, m) ==> got == Some(m)
  {
    hide Buffer.Unread;
    ghost var flag: Payload := if m.Result? then Body(z, path, m) else [0];
    assert flag + [] == flag;
    var ok, bytes := TakeBytes(buffer, 1, flag, []);
    got := if ok then Some(Result(bytes[0] != 0)) else None;
  }

  /** The message that a packet carries. */
  method Unpack(z: Zip, op: Byte, payload: Payload, ghost path: Payload, ghost m: Msg) returns (got: Option<Msg>)
    requires Lossless(z)
    ensures Fitting(z, path, m) && op == OpOf(m) && payload == Body(z, path, m) ==> got == Some(m)
  {
    hide Fitting, Body, Buffer.Unread;
    var buffer := new Buffer.Of(payload);
    match op
    case 2 => got := UnpackInfo(buffer, z, path, m);
    case 3 => got := UnpackHash(buffer, z, path, m);
    case 4 => got := UnpackChunk(buffer, z, path, m);
    case 5 => got := UnpackResult(buffer, z, path, m);
    case _ => got := None;
  }

  // ---------------------------------------------------------------- writing

  /** The packet of a message: the capacity taken for it is what it needs. */
  method Pack(z: Zip, path: Payload, m: Msg) returns (packet: Payload)
    ensures packet == Frame(OpOf(m), Body(z, path, m))
  {
    hide BigEndian, EncodeFile;
    match m
    case Info(size, ts, up) => packet := PackInfo(path, size, ts, up, z);
    case HashOf(off, size, hash) => packet := PackHash(path, off, size, hash, z);
    case Chunk(off, data) => packet := PackChunk(path, off, data, z);
    case Result(good) =>
      var buffer := CreatePacket(5, 1);
      var ok := buffer.Write([if good then 1 else 0]);
      packet := SealPacket(buffer, 5, Body(z, path, m));
  }

  method PackInfo(path: Payload, size: nat, ts: nat, up: bool, ghost z: Zip) returns (packet: Payload)
    ensures packet == Frame(2, Body(z, path, Info(size, ts, up)))
  {
    hide BigEndian, EncodeFile;
    var buffer := CreatePacket(2, 1 + |path| + 8 + 4 + 1);
    EntrySize(FileInfo(path, size, ts));
    var ok := WriteFile(buffer, FileInfo(path, size, ts));
    ok := buffer.Write([if up then 0 else 1]);
    packet := SealPacket(buffer, 2, Body(z, path, Info(size, ts, up)));
  }

  method PackHash(ghost path: Payload, off: nat, size: nat, hash: nat, ghost z: Zip) returns (packet: Payload)
    ensures packet == Frame(3, Body(z, path, HashOf(off, size, hash)))
  {
    hide BigEndian;
    var buffer := CreatePacket(3, 8 + 8 + 8);
    var ok := buffer.WriteNumber(off, 8);
    ok := buffer.WriteNumber(size, 8);
    ok := buffer.WriteNumber(hash, 8);
    packet := SealPacket(buffer, 3, Body(z, path, HashOf(off, size, hash)));
  }

  method PackChunk(ghost path: Payload, off: nat, data: Payload, z: Zip) returns (packet: Payload)
    ensures packet == Frame(4, Body(z, path, Chunk(off, data)))
  {
    hide BigEndian;
    var packed := z.pack(data);
    var buffer := CreatePacket(4, 8 + 8 + 8 + |packed|);
    var ok := buffer.WriteNumber(off, 8);
    ok := buffer.WriteNumber(|data|, 8);
    ok := buffer.WriteNumber(|packed|, 8);
    ok := buffer.Write(packed);
    packet := SealPacket(buffer, 4, Body(z, path, Chunk(off, data)));
  }

  lemma EntrySize(f: FileInfo)
    ensures |EncodeFile(f)| == 13 + |f.path|
  {
  }

  // ---------------------------------------------------------------- a side of the conversation

  function Packets(z: Zip, path: Payload, ms: seq<Msg>): (ps: seq<Message>)
    ensures |ps| == |ms|
    ensures forall i :: 0 <= i < |ms| ==> ps[i] == Message(OpOf(ms[i]), Body(z, path, ms[i]))
  {
    seq(|ms|, i requires 0 <= i < |ms| => Message(OpOf(ms[i]), Body(z, path, ms[i])))
  }

  method PackAll(z: Zip, path: Payload, ms: seq<Msg>) returns (data: Payload)
    ensures data == Frames(Packets(z, path, ms))
  {
    hide Body, Frames, Frame;
    ghost var ps := Packets(z, path, ms);
    var i := 0;
    data := [];
    NoFrames();
    assert ps[..0] == [];
    while i < |ms|
      invariant 0 <= i <= |ms| && data == Frames(ps[..i])
    {
      var packet := Pack(z, path, ms[i]);
      FramesMore(ps[..i], ps[i]);
      assert ps[..i + 1] == ps[..i] + [ps[i]];
      data := data + packet;
      i := i + 1;
    }
    assert ps[..i] == ps;
  }

  method UnpackAll(z: Zip, got: seq<Message>, ghost path: Payload, ghost ms: seq<Msg>) returns (heard: seq<Msg>)
    requires Lossless(z) && got <= Packets(z, path, ms)
    requires forall i :: 0 <= i < |ms| ==> Fitting(z, path, ms[i])
    ensures |heard| == |got| && heard <= ms
  {
    hide Fitting, Body;
    heard := [];
    while |heard| < |got|
      invariant |heard| <= |got| && heard <= ms
    {
      ghost var j := |heard|;
      assert got[j] == Packets(z, path, ms)[j];
      var m := Unpack(z, got[|heard|].op, got[|heard|].payload, path, ms[j]);
      heard := heard + [m.value];
    }
  }

  /** One side says `ms`, the other listens: it hears them, each once and in order, or the
      connection goes down. */
  method Converse(z: Zip, path: Payload, a: Socket, b: Socket, ms: seq<Msg>) returns (heard: seq<Msg>)
    requires Lossless(z) && a != b && a.outgoing == []
    requires forall i :: 0 <= i < |ms| ==> Fitting(z, path, ms[i])
    modifies a`grants, a`outgoing, b`grants, b`incoming
    ensures heard <= ms && (heard == ms || b.Down())
    ensures var n := |Frames(Packets(z, path, ms))|;
      Productive(old(a.grants)) >= n && Productive(old(b.grants)) >= n ==> heard == ms
  {
    hide Fitting, Body, Frames, Sendable, Productive;
    var data := PackAll(z, path, ms);
    AllSendable(z, path, ms);
    ghost var ps := Packets(z, path, ms);
    var got := Carry(a, b, data, |ms|, ps);
    heard := UnpackAll(z, got, path, ms);
  }

  lemma AllSendable(z: Zip, path: Payload, ms: seq<Msg>)
    requires forall i :: 0 <= i < |ms| ==> Fitting(z, path, ms[i])
    ensures Sendable(Packets(z, path, ms))
  {
    hide Body, Pow256;
  }
}
