/** Packet buffers: typed values written and read one after another, numbers in network byte
    order, and the packets of a file listing. */
module ByteBuffer {
  import opened Bytes

  // ---------------------------------------------------------------- numbers

  function Pow256(k: nat): nat {
    if k == 0 then 1 else 0x100 * Pow256(k - 1)
  }

  /** The low `k` bytes of a number, the highest first. */
  function BigEndian(n: nat, k: nat): (r: Payload)
    ensures |r| == k
  {
    if k == 0 then [] else BigEndian(n / 0x100, k - 1) + [n % 0x100]
  }

  function FromBigEndian(b: Payload): nat {
    if b == [] then 0 else 0x100 * FromBigEndian(b[..|b| - 1]) + b[|b| - 1]
  }

  lemma PowPositive(k: nat)
    ensures Pow256(k) > 0
  {
  }

  /** Taking off the low byte and then others is taking them off all at once. */
  lemma ShiftAgain(n: nat, m: nat)
    requires m > 0
    ensures n / 0x100 / m == n / (0x100 * m)
  {
    var q, r := n / 0x100 / m, n / 0x100 % m;
    assert n == 0x100 * m * q + (0x100 * r + n % 0x100);
    assert 0 <= 0x100 * r + n % 0x100 < 0x100 * m;
    Quotient(n, 0x100 * m, q, 0x100 * r + n % 0x100);
  }

  lemma Quotient(n: nat, d: nat, q: nat, r: nat)
    requires d > 0 && n == d * q + r && r < d
    ensures n / d == q
  {
    var e := n / d - q;
    assert d * e == r - n % d;
    assert e > 0 ==> d * e >= d;
    assert e < 0 ==> d * e + d <= 0;
  }

  /** Network order: byte `i` of `k` is worth `256` to the number of bytes behind it. */
  lemma {:induction false} BigEndianAt(n: nat, k: nat, i: nat)
    requires i < k
    ensures Pow256(k - 1 - i) > 0 && BigEndian(n, k)[i] == n / Pow256(k - 1 - i) % 0x100
  {
    PowPositive(k - 1 - i);
    if i < k - 1 {
      BigEndianAt(n / 0x100, k - 1, i);
      ShiftAgain(n, Pow256(k - 2 - i));
    }
  }

  lemma {:induction false} NumberRoundTrip(n: nat, k: nat)
    requires n < Pow256(k)
    ensures FromBigEndian(BigEndian(n, k)) == n
  {
    if k > 0 {
      NumberRoundTrip(n / 0x100, k - 1);
      var b := BigEndian(n, k);
      assert b[..|b| - 1] == BigEndian(n / 0x100, k - 1);
    }
  }

  lemma {:induction false} BytesRoundTrip(b: Payload)
    ensures FromBigEndian(b) < Pow256(|b|) && BigEndian(FromBigEndian(b), |b|) == b
  {
    if b != [] {
      var front := b[..|b| - 1];
      BytesRoundTrip(front);
      assert b == front + [b[|b| - 1]];
    }
  }

  // ---------------------------------------------------------------- the buffer

  class Buffer {
    const data: array<Byte>
    var offsetR: nat
    var offsetW: nat

    ghost predicate Valid()
      reads this
    {
      offsetR <= data.Length && offsetW <= data.Length
    }

    ghost function Written(): Payload
      requires Valid()
      reads this, data
    {
      data[..offsetW]
    }

    /** What lies behind the reading cursor. */
    ghost function Unread(): Payload
      requires Valid()
      reads this, data
    {
      data[offsetR..]
    }

    constructor (capacity: nat)
      ensures Valid() && fresh(data) && data.Length == capacity && offsetR == 0 && offsetW == 0
    {
      data := new Byte[capacity](_ => 0);
      offsetR, offsetW := 0, 0;
    }

    constructor Of(bytes: Payload)
      ensures Valid() && fresh(data) && data[..] == bytes == Written() == Unread() && offsetR == 0
    {
      data := new Byte[|bytes|](i requires 0 <= i < |bytes| => bytes[i]);
      offsetR, offsetW := 0, |bytes|;
    }

    /** Writes at the cursor, or nothing if there is no room. */
    method Write(bytes: Payload) returns (ok: bool)
      requires Valid()
      modifies `offsetW, data
      ensures Valid() && ok == (old(offsetW) + |bytes| <= data.Length)
      ensures ok ==> offsetW == old(offsetW) + |bytes| && Written() == old(Written()) + bytes
      ensures ok ==> forall i :: offsetW <= i < data.Length ==> data[i] == old(data[i])
      ensures !ok ==> offsetW == old(offsetW) && data[..] == old(data[..])
    {
      if offsetW + |bytes| > data.Length {
        return false;
      }
      forall i | 0 <= i < |bytes| {
        data[offsetW + i] := bytes[i];
      }
      offsetW := offsetW + |bytes|;
      ok := true;
    }

    method WriteNumber(n: nat, k: nat) returns (ok: bool)
      requires Valid()
      modifies `offsetW, data
      ensures Valid() && ok == (old(offsetW) + k <= data.Length)
      ensures ok ==> offsetW == old(offsetW) + k && Written() == old(Written()) + BigEndian(n, k)
      ensures ok ==> forall i :: offsetW <= i < data.Length ==> data[i] == old(data[i])
      ensures !ok ==> offsetW == old(offsetW) && data[..] == old(data[..])
    {
      ok := Write(BigEndian(n, k));
    }

    /** Reads `size` bytes at the cursor, or nothing if there are not so many. */
    method Read(size: nat) returns (ok: bool, bytes: Payload)
      requires Valid()
      modifies `offsetR
      ensures Valid() && ok == (old(offsetR) + size <= data.Length)
      ensures ok ==> offsetR == old(offsetR) + size && bytes == data[old(offsetR)..offsetR]
      ensures ok ==> old(Unread()) == bytes + Unread()
      ensures !ok ==> offsetR == old(offsetR) && bytes == []
    {
      if offsetR + size > data.Length {
        return false, [];
      }
      bytes := data[offsetR..offsetR + size];
      offsetR := offsetR + size;
      ok := true;
    }

    method ReadNumber(k: nat) returns (ok: bool, n: nat)
      requires Valid()
      modifies `offsetR
      ensures Valid() && ok == (old(offsetR) + k <= data.Length)
      ensures ok ==> offsetR == old(offsetR) + k && n == FromBigEndian(data[old(offsetR)..offsetR])
      ensures ok ==> n < Pow256(k) && old(Unread()) == BigEndian(n, k) + Unread()
      ensures !ok ==> offsetR == old(offsetR)
    {
      var bytes;
      ok, bytes := Read(k);
      n := FromBigEndian(bytes);
      BytesRoundTrip(bytes);
    }
  }

  // ---------------------------------------------------------------- a file listing

  /** A path is counted by one byte, a size by eight, a timestamp by four. */
  datatype FileInfo = FileInfo(path: Payload, size: nat, ts: nat)

  predicate Fits(f: FileInfo) {
    |f.path| < Pow256(1) && f.size < Pow256(8) && f.ts < Pow256(4)
  }

  function EncodeFile(f: FileInfo): Payload {
    BigEndian(|f.path|, 1) + f.path + BigEndian(f.size, 8) + BigEndian(f.ts, 4)
  }

  function EncodeFiles(fs: seq<FileInfo>): Payload {
    if fs == [] then [] else EncodeFiles(fs[..|fs| - 1]) + EncodeFile(fs[|fs| - 1])
  }

  /** The payload of a GetFileListResult packet. */
  function EncodeList(fs: seq<FileInfo>): Payload {
    [1] + BigEndian(|fs|, 4) + EncodeFiles(fs)
  }

  function Capacity(fs: seq<FileInfo>): nat {
    if fs == [] then 0 else Capacity(fs[..|fs| - 1]) + 13 + |fs[|fs| - 1].path|
  }

  lemma {:induction false} CapacityExact(fs: seq<FileInfo>)
    ensures |EncodeFiles(fs)| == Capacity(fs)
  {
    if fs != [] {
      CapacityExact(fs[..|fs| - 1]);
    }
  }

  lemma Regroup(a: Payload, b: Payload, c: Payload)
    ensures a + (b + c) == (a + b) + c
  {
  }

  /** Where the parts of an entry stand. */
  lemma EntryLayout(f: FileInfo)
    requires Fits(f)
    ensures var e, n := EncodeFile(f), |f.path|;
      && |e| == n + 13 && e[0] == n && e[1..1 + n] == f.path
      && FromBigEndian(e[1 + n..9 + n]) == f.size && FromBigEndian(e[9 + n..]) == f.ts
  {
    var e, n := EncodeFile(f), |f.path|;
    NumberRoundTrip(n, 1);
    NumberRoundTrip(f.size, 8);
    NumberRoundTrip(f.ts, 4);
    assert BigEndian(n, 1) == [n % 0x100];
    hide BigEndian, FromBigEndian;
    assert e[1 + n..9 + n] == BigEndian(f.size, 8) && e[9 + n..] == BigEndian(f.ts, 4);
  }

  /** A listing: a one for success, four bytes that count the entries, the entries. */
  lemma ListLayout(fs: seq<FileInfo>, k: nat)
    requires |fs| < Pow256(4) && k < |fs|
    ensures var e, at := EncodeList(fs), 5 + |EncodeFiles(fs[..k])|;
      && e[0] == 1 && FromBigEndian(e[1..5]) == |fs| && at + |EncodeFile(fs[k])| <= |e|
      && e[at..at + |EncodeFile(fs[k])|] == EncodeFile(fs[k])
  {
    NumberRoundTrip(|fs|, 4);
    EncodeMore(fs[..k], fs[k..]);
    assert fs == fs[..k] + fs[k..];
    FilesFrom(fs, k);
    hide BigEndian, FromBigEndian, EncodeFile, EncodeFiles;
    var count, front, f, rest := BigEndian(|fs|, 4), EncodeFiles(fs[..k]), EncodeFile(fs[k]), EncodeFiles(fs[k + 1..]);
    Parts([1], count, front, f, rest);
  }

  lemma Parts(a: Payload, b: Payload, c: Payload, d: Payload, e: Payload)
    ensures var s, at := a + b + (c + (d + e)), |a| + |b| + |c|;
      && s[..|a|] == a && s[|a|..|a| + |b|] == b
      && at + |d| <= |s| && s[at..at + |d|] == d
  {
  }

  lemma {:induction false} EncodeMore(a: seq<FileInfo>, b: seq<FileInfo>)
    ensures EncodeFiles(a + b) == EncodeFiles(a) + EncodeFiles(b)
  {
    if b == [] {
      assert a + b == a;
    } else {
      hide EncodeFile;
      var front, last := b[..|b| - 1], b[|b| - 1];
      assert (a + b)[..|a + b| - 1] == a + front && (a + b)[|a + b| - 1] == last;
      EncodeMore(a, front);
      Regroup(EncodeFiles(a), EncodeFiles(front), EncodeFile(last));
    }
  }

  /** A packet: an operation code, the size of the payload in eight bytes, the payload. */
  function Frame(op: Byte, payload: Payload): Payload {
    [op] + BigEndian(|payload|, 8) + payload
  }

  lemma FrameLayout(op: Byte, payload: Payload)
    requires |payload| < Pow256(8)
    ensures var b := Frame(op, payload);
      |b| == 9 + |payload| && b[0] == op && FromBigEndian(b[1..9]) == |payload| && b[9..] == payload
  {
    NumberRoundTrip(|payload|, 8);
    hide BigEndian, FromBigEndian;
    assert Frame(op, payload)[1..9] == BigEndian(|payload|, 8);
  }

  /** Two streams of packets that agree byte for byte agree packet for packet. */
  lemma FrameSplits(op: Byte, p: Payload, more: Payload, op': Byte, p': Payload, more': Payload)
    requires |p| < Pow256(8) && |p'| < Pow256(8)
    requires Frame(op, p) + more == Frame(op', p') + more'
    ensures op == op' && p == p' && more == more'
  {
    var s, s' := Frame(op, p) + more, Frame(op', p') + more';
    assert s[1..9] == BigEndian(|p|, 8) && s'[1..9] == BigEndian(|p'|, 8);
    NumberRoundTrip(|p|, 8);
    NumberRoundTrip(|p'|, 8);
    assert s[9..9 + |p|] == p && s'[9..9 + |p'|] == p';
    assert s[9 + |p|..] == more && s'[9 + |p'|..] == more';
    assert s[0] == op && s'[0] == op';
  }

  datatype Message = Message(op: Byte, payload: Payload)

  /** The packets the protocol knows: operation codes up to 5, sizes that fit eight bytes. */
  predicate Sendable(ms: seq<Message>) {
    forall i :: 0 <= i < |ms| ==> ms[i].op <= 5 && |ms[i].payload| < Pow256(8)
  }

  function Frames(ms: seq<Message>): Payload {
    if ms == [] then [] else Frame(ms[0].op, ms[0].payload) + Frames(ms[1..])
  }

  lemma {:induction false} FramesMore(ms: seq<Message>, m: Message)
    ensures Frames(ms + [m]) == Frames(ms) + Frame(m.op, m.payload)
  {
    hide Frame;
    if ms == [] {
      assert [m][1..] == [];
    } else {
      FramesMore(ms[1..], m);
      assert (ms + [m])[1..] == ms[1..] + [m];
    }
  }

  /** What begins a stream of packets with a packet begins with its first packet, and goes on as
      the stream of the others. */
  lemma FirstOfFrames(ms: seq<Message>, m: Message, s: Payload, rest: Payload)
    requires Sendable(ms) && |m.payload| < Pow256(8)
    requires s <= Frames(ms) && s == Frame(m.op, m.payload) + rest
    ensures ms != [] && m == ms[0] && rest <= Frames(ms[1..])
  {
    hide Pow256;
    var all := Frames(ms);
    var more := all[|s|..];
    assert all == s + more;
    assert |Frame(m.op, m.payload)| >= 9 by {
      hide Frames, BigEndian;
    }
    hide Frame;
    Regroup(Frame(m.op, m.payload), rest, more);
    FrameSplits(m.op, m.payload, rest + more, ms[0].op, ms[0].payload, Frames(ms[1..]));
  }

  /** Two streams of as many packets that agree byte for byte agree packet for packet. */
  lemma {:induction false} FramesSplit(ms: seq<Message>, more: Payload, ms': seq<Message>, more': Payload)
    requires Sendable(ms) && Sendable(ms') && |ms| == |ms'| && Frames(ms) + more == Frames(ms') + more'
    ensures ms == ms' && more == more'
  {
    hide Frame, Pow256;
    if ms == [] {
      assert Frames(ms) + more == more && Frames(ms') + more' == more';
    } else {
      var m, m' := ms[0], ms'[0];
      var rest, rest' := Frames(ms[1..]) + more, Frames(ms'[1..]) + more';
      assert Frames(ms) + more == Frame(m.op, m.payload) + rest;
      assert Frames(ms') + more' == Frame(m'.op, m'.payload) + rest';
      FrameSplits(m.op, m.payload, rest, m'.op, m'.payload, rest');
      FramesSplit(ms[1..], more, ms'[1..], more');
      assert ms == [m] + ms[1..] && ms' == [m'] + ms'[1..];
    }
  }

  const HEADER := 9

  /** A packet's buffer starts with its operation code and a size still to be filled in. */
  method CreatePacket(op: Byte, capacity: nat) returns (buffer: Buffer)
    ensures fresh(buffer) && fresh(buffer.data) && buffer.Valid() && buffer.data.Length == HEADER + capacity
    ensures buffer.Written() == [op] + BigEndian(0, 8)
  {
    buffer := new Buffer(HEADER + capacity);
    var ok := buffer.Write([op]);
    ok := buffer.WriteNumber(0, 8);
  }

  /** Filling in the size makes it a packet. */
  method SealPacket(buffer: Buffer, ghost op: Byte, ghost payload: Payload) returns (packet: Payload)
    requires buffer.Valid() && buffer.Written() == [op] + BigEndian(0, 8) + payload
    modifies buffer, buffer.data
    ensures packet == Frame(op, payload)
  {
    hide BigEndian;
    var size := buffer.offsetW;
    assert buffer.data[HEADER..size] == payload by {
      assert buffer.Written()[HEADER..] == payload;
    }
    buffer.offsetW := 1;
    assert buffer.Written() == [op];
    var ok := buffer.WriteNumber(size - HEADER, 8);
    assert buffer.data[HEADER..size] == payload;
    buffer.offsetW := size;
    packet := buffer.data[..size];
    assert packet == buffer.data[..HEADER] + buffer.data[HEADER..size];
  }

  predicate EachFits(fs: seq<FileInfo>) {
    forall i :: 0 <= i < |fs| ==> Fits(fs[i])
  }

  predicate AllFit(fs: seq<FileInfo>) {
    |fs| < Pow256(4) && EachFits(fs)
  }

  method ComputeCapacity(fs: seq<FileInfo>) returns (capacity: nat)
    ensures capacity == 5 + Capacity(fs)
  {
    var i := 0;
    capacity := 5;
    while i < |fs|
      invariant 0 <= i <= |fs| && capacity == 5 + Capacity(fs[..i])
    {
      assert fs[..i + 1][..i] == fs[..i];
      capacity := capacity + 1 + |fs[i].path| + 8 + 4;
      i := i + 1;
    }
    assert fs[..i] == fs;
  }

  /** Writing one entry into a buffer with room for it. */
  method WriteFile(buffer: Buffer, f: FileInfo) returns (ok: bool)
    requires buffer.Valid()
    modifies buffer`offsetW, buffer.data
    ensures buffer.Valid() && ok == (old(buffer.offsetW) + |EncodeFile(f)| <= buffer.data.Length)
    ensures ok ==> buffer.Written() == old(buffer.Written()) + EncodeFile(f)
  {
    hide BigEndian;
    ghost var was := buffer.Written();
    ok := buffer.WriteNumber(|f.path|, 1);
    if ok {
      ok := buffer.Write(f.path);
    }
    if ok {
      ok := buffer.WriteNumber(f.size, 8);
    }
    if ok {
      ok := buffer.WriteNumber(f.ts, 4);
    }
    if ok {
      assert buffer.Written() == was + EncodeFile(f);
    }
  }

  /** The packet that answers a listing request: the capacity computed beforehand is exactly
      what the entries need, so no write fails. */
  method SendFileList(files: Option<seq<FileInfo>>) returns (packet: Payload)
    ensures packet == Frame(1, if files.Some? then EncodeList(files.value) else [0])
  {
    hide BigEndian, EncodeFiles, EncodeFile, Capacity;
    if files.None? {
      var failed := CreatePacket(1, 1);
      var ok := failed.Write([0]);
      packet := SealPacket(failed, 1, [0]);
      return;
    }
    var fs := files.value;
    var capacity := ComputeCapacity(fs);
    var buffer := CreatePacket(1, capacity);
    var ok := buffer.Write([1]);
    ok := buffer.WriteNumber(|fs|, 4);
    ghost var head := buffer.Written();
    NoFiles();
    assert head + EncodeFiles([]) == head && fs[..0] == [];
    var i := 0;
    while i < |fs|
      invariant 0 <= i <= |fs| && buffer.Valid() && fresh(buffer) && fresh(buffer.data) && ok
      invariant buffer.Written() == head + EncodeFiles(fs[..i]) && |head| == HEADER + 5
      invariant buffer.data.Length == HEADER + 5 + Capacity(fs)
    {
      EntryFits(fs, i);
      ok := WriteFile(buffer, fs[i]);
      assert buffer.Written() == head + (EncodeFiles(fs[..i]) + EncodeFile(fs[i]));
      i := i + 1;
    }
    assert fs[..i] == fs;
    assert buffer.Written() == [1] + BigEndian(0, 8) + EncodeList(fs);
    packet := SealPacket(buffer, 1, EncodeList(fs));
  }

  lemma NoFiles()
    ensures EncodeFiles([]) == []
  {
  }

  lemma EntryFits(fs: seq<FileInfo>, i: nat)
    requires i < |fs|
    ensures |EncodeFiles(fs[..i])| + |EncodeFile(fs[i])| <= Capacity(fs)
    ensures EncodeFiles(fs[..i + 1]) == EncodeFiles(fs[..i]) + EncodeFile(fs[i])
  {
    assert fs[..i + 1][..i] == fs[..i];
    assert fs == fs[..i + 1] + fs[i + 1..];
    EncodeMore(fs[..i + 1], fs[i + 1..]);
    CapacityExact(fs);
  }

  /** Reading one entry back: of bytes that begin with an entry that entry, and otherwise
      nothing. */
  method ReadFile(buffer: Buffer, ghost g: FileInfo, ghost rest: Payload) returns (ok: bool, f: FileInfo)
    requires buffer.Valid()
    modifies buffer`offsetR
    ensures buffer.Valid()
    ensures ok ==> Fits(f) && old(buffer.Unread()) == EncodeFile(f) + buffer.Unread()
    ensures Fits(g) && old(buffer.Unread()) == EncodeFile(g) + rest ==> ok && f == g && buffer.Unread() == rest
  {
    hide BigEndian, FromBigEndian, Pow256, EncodeFile;
    ghost var d := buffer.Unread();
    ghost var good := Fits(g) && d == EncodeFile(g) + rest;
    ghost var e3 := BigEndian(g.ts, 4) + rest;
    ghost var e2 := BigEndian(g.size, 8) + e3;
    EntryParts(g, rest);
    var n, path, size, ts := 0, [], 0, 0;
    ok, n := buffer.ReadNumber(1);
    assert good ==> ok && n == |g.path| && buffer.Unread() == g.path + e2 by {
      if good {
        NumberSplits(n, 1, buffer.Unread(), |g.path|, g.path + e2);
      }
    }
    if ok {
      ok, path := buffer.Read(n);
      assert good ==> ok && path == g.path && buffer.Unread() == e2 by {
        if good {
          Same(path, buffer.Unread(), g.path, e2);
        }
      }
    }
    if ok {
      ok, size := buffer.ReadNumber(8);
      assert good ==> ok && size == g.size && buffer.Unread() == e3 by {
        if good {
          NumberSplits(size, 8, buffer.Unread(), g.size, e3);
        }
      }
    }
    if ok {
      ok, ts := buffer.ReadNumber(4);
      assert good ==> ok && ts == g.ts && buffer.Unread() == rest by {
        if good {
          NumberSplits(ts, 4, buffer.Unread(), g.ts, rest);
        }
      }
    }
    f := FileInfo(path, size, ts);
    EntryParts(f, buffer.Unread());
  }

  lemma Same(a: Payload, s: Payload, b: Payload, t: Payload)
    requires |a| == |b| && a + s == b + t
    ensures a == b && s == t
  {
    assert a == (a + s)[..|a|] && b == (b + t)[..|a|];
    assert s == (a + s)[|a|..] && t == (b + t)[|a|..];
  }

  lemma NumberSplits(n: nat, k: nat, s: Payload, n': nat, s': Payload)
    requires n < Pow256(k) && n' < Pow256(k) && BigEndian(n, k) + s == BigEndian(n', k) + s'
    ensures n == n' && s == s'
  {
    hide BigEndian, Pow256;
    Same(BigEndian(n, k), s, BigEndian(n', k), s');
    NumberRoundTrip(n, k);
    NumberRoundTrip(n', k);
  }

  lemma EntryParts(f: FileInfo, s: Payload)
    ensures EncodeFile(f) + s ==
      BigEndian(|f.path|, 1) + (f.path + (BigEndian(f.size, 8) + (BigEndian(f.ts, 4) + s)))
  {
    hide BigEndian;
  }

  lemma EachOf(fs: seq<FileInfo>, i: nat)
    requires EachFits(fs) && i < |fs|
    ensures Fits(fs[i]) && fs[..i + 1] == fs[..i] + [fs[i]]
  {
  }

  lemma NoneFits()
    ensures EachFits([])
  {
  }

  lemma EachMore(fs: seq<FileInfo>, f: FileInfo)
    requires EachFits(fs) && Fits(f)
    ensures EachFits(fs + [f])
  {
  }

  datatype Listing = Listed(files: seq<FileInfo>) | RemoteError | ApiError | ConnectionLost

  /** The payload says yes and begins with the listing `fs`. */
  predicate Lists(payload: Payload, fs: seq<FileInfo>) {
    && AllFit(fs) && |payload| > 0 && payload[0] != 0
    && BigEndian(|fs|, 4) + EncodeFiles(fs) <= payload[1..]
  }

  /** Reading `count` entries back, `fs` and `rest` being what they may have been written from. */
  method ReadFiles(buffer: Buffer, count: nat, ghost fs: seq<FileInfo>, ghost rest: Payload)
    returns (ok: bool, files: seq<FileInfo>)
    requires buffer.Valid()
    modifies buffer`offsetR
    ensures buffer.Valid()
    ensures ok ==> |files| == count && EachFits(files)
    ensures ok ==> old(buffer.Unread()) == EncodeFiles(files) + buffer.Unread()
    ensures EachFits(fs) && |fs| == count && old(buffer.Unread()) == EncodeFiles(fs) + rest ==>
      ok && files == fs
  {
    hide EncodeFiles, EncodeFile, Fits, EachFits, Buffer.Unread;
    files := [];
    ghost var all := buffer.Unread();
    ghost var good := EachFits(fs) && |fs| == count && all == EncodeFiles(fs) + rest;
    NoFiles();
    assert fs[0..] == fs && fs[..0] == [] && all == EncodeFiles([]) + all;
    assert EachFits(files) by {
      NoneFits();
    }
    while |files| < count
      invariant |files| <= count && buffer.Valid() && EachFits(files)
      invariant all == EncodeFiles(files) + buffer.Unread()
      invariant good ==> files == fs[..|files|]
      invariant good ==> buffer.Unread() == EncodeFiles(fs[|files|..]) + rest
    {
      var f;
      ghost var left := buffer.Unread();
      ghost var i := |files|;
      ghost var g := if good then fs[i] else FileInfo([], 0, 0);
      ghost var more := if good then EncodeFiles(fs[i + 1..]) + rest else [];
      if good {
        EachOf(fs, i);
        FilesFrom(fs, i);
        Regroup(EncodeFile(g), EncodeFiles(fs[i + 1..]), rest);
      }
      ok, f := ReadFile(buffer, g, more);
      if !ok {
        return;
      }
      OneMoreFile(files, f);
      EachMore(files, f);
      Regroup(EncodeFiles(files), EncodeFile(f), buffer.Unread());
      files := files + [f];
    }
    ok := true;
  }

  /** The listing read back from a packet's payload: the one it begins with, if it says yes and
      begins with one. */
  method ParseFileList(payload: Payload, ghost fs: seq<FileInfo>) returns (listing: Listing)
    ensures listing.Listed? ==> Lists(payload, listing.files)
    ensures Lists(payload, fs) ==> listing == Listed(fs)
    ensures listing == RemoteError <==> |payload| > 0 && payload[0] == 0
    ensures listing != ConnectionLost
  {
    hide BigEndian, FromBigEndian, Pow256, EncodeFiles, Lists, EachFits, Buffer.Unread;
    var buffer := new Buffer.Of(payload);
    ListsLong(payload, fs);
    var ok, flag := buffer.Read(1);
    if !ok {
      return ApiError;
    }
    ghost var behind := buffer.Unread();
    if flag[0] == 0 {
      return RemoteError;
    }
    var count;
    ok, count := buffer.ReadNumber(4);
    if !ok {
      return ApiError;
    }
    ghost var left := buffer.Unread();
    CountRead(payload, flag, behind, count, left, fs);
    var files;
    ok, files := ReadFiles(buffer, count, fs, Behind(left, fs));
    if !ok {
      return ApiError;
    }
    ListRead(payload, flag, behind, files, left, buffer.Unread());
    listing := Listed(files);
  }

  /** What follows the listing in `s`. */
  function Behind(s: Payload, fs: seq<FileInfo>): Payload {
    if |EncodeFiles(fs)| <= |s| then s[|EncodeFiles(fs)|..] else []
  }

  lemma ListsLong(payload: Payload, fs: seq<FileInfo>)
    ensures Lists(payload, fs) ==> |payload| >= 5 && payload[0] != 0 && EachFits(fs)
  {
    hide EncodeFiles, EachFits;
  }

  /** The four bytes of the count. */
  lemma CountRead(payload: Payload, flag: Payload, s: Payload, count: nat, t: Payload, fs: seq<FileInfo>)
    requires |flag| == 1 && payload == flag + s && count < Pow256(4) && s == BigEndian(count, 4) + t
    ensures Lists(payload, fs) ==> count == |fs| && t == EncodeFiles(fs) + Behind(t, fs)
  {
    hide BigEndian, FromBigEndian, Pow256, EncodeFiles, EachFits;
    if Lists(payload, fs) {
      assert payload[1..] == s;
      var n, files := BigEndian(|fs|, 4), EncodeFiles(fs);
      var rest := s[|n + files|..];
      Regroup(n, files, rest);
      NumberSplits(count, 4, t, |fs|, files + rest);
    }
  }

  lemma ListRead(payload: Payload, flag: Payload, s: Payload, files: seq<FileInfo>, t: Payload, rest: Payload)
    requires |flag| == 1 && payload == flag + s && flag[0] != 0 && |files| < Pow256(4) && EachFits(files)
    requires s == BigEndian(|files|, 4) + t && t == EncodeFiles(files) + rest
    ensures Lists(payload, files)
  {
    hide BigEndian, FromBigEndian, Pow256, EncodeFiles, EachFits;
    var n, fs := BigEndian(|files|, 4), EncodeFiles(files);
    Regroup(n, fs, rest);
    assert payload[1..] == s;
    assert n + fs <= (n + fs) + rest;
  }

  /** What the sender of a listing puts into its packet lists it. */
  lemma EncodedLists(fs: seq<FileInfo>)
    requires AllFit(fs)
    ensures Lists(EncodeList(fs), fs)
  {
    hide BigEndian, Pow256, EncodeFiles;
    assert EncodeList(fs)[1..] == BigEndian(|fs|, 4) + EncodeFiles(fs);
  }

  lemma FilesFrom(fs: seq<FileInfo>, i: nat)
    requires i < |fs|
    ensures EncodeFiles(fs[i..]) == EncodeFile(fs[i]) + EncodeFiles(fs[i + 1..])
  {
    hide EncodeFiles, EncodeFile;
    EncodeMore([fs[i]], fs[i + 1..]);
    assert [fs[i]] + fs[i + 1..] == fs[i..];
    OneFile(fs[i]);
  }

  lemma OneMoreFile(fs: seq<FileInfo>, f: FileInfo)
    ensures EncodeFiles(fs + [f]) == EncodeFiles(fs) + EncodeFile(f)
  {
    hide EncodeFiles, EncodeFile;
    EncodeMore(fs, [f]);
    OneFile(f);
  }

  lemma OneFile(f: FileInfo)
    ensures EncodeFiles([f]) == EncodeFile(f)
  {
    assert [f][..0] == [];
    NoFiles();
  }
}
