/** Whole packets over a byte stream that the operating system moves in pieces of its own
    choosing. */
module Socket {
  import opened Bytes
  import opened ByteBuffer

  /** What the system allows one call: a number of bytes, nothing for now, or the end. */
  datatype Grant = UpTo(n: nat) | WouldBlock | Closed

  /** How many bytes all the coming calls together may move before the connection closes. */
  function Allowance(gs: seq<Grant>): nat {
    if gs == [] || gs[0].Closed? then 0 else (if gs[0].UpTo? then gs[0].n else 0) + Allowance(gs[1..])
  }

  /** How many of them may move anything. */
  function Productive(gs: seq<Grant>): nat {
    if gs == [] || gs[0].Closed? then 0
    else (if gs[0] != WouldBlock && gs[0] != UpTo(0) then 1 else 0) + Productive(gs[1..])
  }

  lemma {:induction false} ProductiveAllowed(gs: seq<Grant>)
    ensures Productive(gs) <= Allowance(gs)
  {
    if gs != [] {
      ProductiveAllowed(gs[1..]);
    }
  }

  function Least(a: nat, b: nat): nat {
    if a < b then a else b
  }

  /** What one call for up to `want` of `avail` bytes moves, and what it leaves to the others. */
  lemma OneCall(gs: seq<Grant>, want: nat, avail: nat)
    requires gs != [] && !gs[0].Closed? && want > 0
    ensures var most := Least(want, avail);
      var k := if most == 0 || gs[0].WouldBlock? || gs[0].n == 0 then 0 else Least(gs[0].n, most);
      && k + Least(want - k, Least(avail - k, Allowance(gs[1..]))) == Least(want, Least(avail, Allowance(gs)))
      && (want <= avail ==> Productive(gs[1..]) + k >= Productive(gs))
  {
  }

  datatype Outcome = Packet(op: Byte, payload: Payload) | Blocked | Lost | Refused

  /** `incoming` are the bytes the peer has sent and this side has not read, `outgoing` those
      sent, and `grants` what the coming calls will be allowed; when they run out the
      connection is gone. */
  class Socket {
    var incoming: Payload
    var outgoing: Payload
    var grants: seq<Grant>

    constructor (incoming: Payload, grants: seq<Grant>)
      ensures this.incoming == incoming && outgoing == [] && this.grants == grants
    {
      this.incoming, this.outgoing, this.grants := incoming, [], grants;
    }

    predicate Down()
      reads this
    {
      grants == [] || grants[0].Closed?
    }

    /** Whether the next call, for up to `most` bytes, would block. */
    predicate Blocking(most: nat)
      requires !Down()
      reads this
    {
      most == 0 || grants[0].WouldBlock? || grants[0].n == 0
    }

    /** Up to `most` bytes: -1 would block, 0 closed, else the number of bytes moved. */
    method Allow(most: nat) returns (n: int)
      modifies `grants
      ensures old(Down()) ==> n == 0 && grants == old(grants)
      ensures !old(Down()) ==> grants == old(grants)[1..]
      ensures !old(Down()) ==> n == if old(Blocking(most)) then -1 else Least(old(grants)[0].n, most)
    {
      if Down() {
        return 0;
      }
      var g := grants[0];
      grants := grants[1..];
      n := if g.WouldBlock? || g.n == 0 || most == 0 then -1 else if g.n < most then g.n else most;
    }

    method Receive(size: nat) returns (n: int, got: Payload)
      modifies `grants, `incoming
      ensures old(Down()) ==> n == 0 && grants == old(grants)
      ensures !old(Down()) ==> grants == old(grants)[1..]
      ensures !old(Down()) ==>
        var most := Least(size, |old(incoming)|);
        n == if old(Blocking(most)) then -1 else Least(old(grants)[0].n, most)
      ensures var k := if n > 0 then n else 0;
        k <= |old(incoming)| && got == old(incoming)[..k] && incoming == old(incoming)[k..]
    {
      n := Allow(if size < |incoming| then size else |incoming|);
      got := if n > 0 then incoming[..n] else [];
      incoming := incoming[|got|..];
    }

    /** All of `size` bytes, however they come, or 0 if the connection goes down first: as many as
        there are and as the calls together allow. */
    method ReceiveAll(size: nat) returns (n: int, got: Payload)
      modifies `grants, `incoming
      ensures |got| == Least(size, Least(|old(incoming)|, Allowance(old(grants))))
      ensures got == old(incoming)[..|got|] && incoming == old(incoming)[|got|..]
      ensures if |got| == size then n == size else n == 0 && Down()
      ensures size <= |old(incoming)| ==> Productive(grants) + |got| >= Productive(old(grants))
    {
      hide Allowance, Productive;
      got := [];
      while |got| < size
        invariant |got| <= size && |got| <= |old(incoming)|
        invariant got == old(incoming)[..|got|] && incoming == old(incoming)[|got|..]
        invariant |got| + Least(size - |got|, Least(|incoming|, Allowance(grants))) ==
          Least(size, Least(|old(incoming)|, Allowance(old(grants))))
        invariant size <= |old(incoming)| ==> Productive(grants) + |got| >= Productive(old(grants))
        decreases |grants|
      {
        var more;
        NoneWhenDown(grants);
        if !Down() {
          OneCall(grants, size - |got|, |incoming|);
        }
        n, more := Receive(size - |got|);
        if n == 0 {
          return;
        }
        if n > 0 {
          Further(old(incoming), |got|, n);
          got := got + more;
        }
      }
      n := size;
    }

    /** As above, but -1 if nothing at all has come yet. */
    method TryReceiveAll(size: nat) returns (n: int, got: Payload)
      requires size > 0
      modifies `grants, `incoming
      ensures n == -1 <==> !old(Down()) && old(Blocking(Least(size, |incoming|)))
      ensures old(Down()) ==> n == 0 && got == []
      ensures n == -1 ==> got == [] && incoming == old(incoming) && grants == old(grants)[1..]
      ensures n != -1 ==> |got| == Least(size, Least(|old(incoming)|, Allowance(old(grants))))
      ensures n != -1 ==> if |got| == size then n == size else n == 0 && Down()
      ensures |got| <= |old(incoming)| && got == old(incoming)[..|got|] && incoming == old(incoming)[|got|..]
      ensures size <= |old(incoming)| ==> Productive(grants) + |got| >= Productive(old(grants))
    {
      hide Allowance, Productive;
      NoneWhenDown(grants);
      if !Down() {
        OneCall(grants, size, |incoming|);
      }
      n, got := Receive(size);
      if n <= 0 {
        return;
      }
      ghost var first := |got|;
      var rest;
      n, rest := ReceiveAll(size - |got|);
      Further(old(incoming), first, |rest|);
      got := got + rest;
      n := if |got| == size then size else 0;
    }

    /** All of `data`, in whatever pieces, or 0 if the connection goes down first: as much as the
        calls together allow. */
    method SendAll(data: Payload) returns (n: int)
      modifies `grants, `outgoing
      ensures outgoing == old(outgoing) + data[..Least(|data|, Allowance(old(grants)))]
      ensures if |data| <= Allowance(old(grants)) then n == |data| else n == 0 && Down()
      ensures Productive(grants) + |data| >= Productive(old(grants))
    {
      hide Allowance, Productive;
      var i := 0;
      while i < |data|
        invariant 0 <= i <= |data| && outgoing == old(outgoing) + data[..i]
        invariant i + Least(|data| - i, Allowance(grants)) == Least(|data|, Allowance(old(grants)))
        invariant Productive(grants) + i >= Productive(old(grants))
        decreases |grants|
      {
        NoneWhenDown(grants);
        if !Down() {
          OneCall(grants, |data| - i, |data| - i);
        }
        n := Allow(|data| - i);
        if n == 0 {
          return;
        }
        if n > 0 {
          assert data[..i + n] == data[..i] + data[i..i + n];
          outgoing := outgoing + data[i..i + n];
          i := i + n;
        }
      }
      assert data[..i] == data;
      n := |data|;
    }

    /** The next packet: exactly the one at the front of the stream, which then starts behind
        it, however the stream is cut into pieces.  With enough calls that move something it is
        found; without waiting, the answer is that it would block exactly if the first call
        would. */
    method ReadNextPacket(block: bool) returns (r: Outcome)
      modifies `grants, `incoming
      ensures r.Packet? ==> r.op <= 5 && |r.payload| < Pow256(8) && old(incoming) == Frame(r.op, r.payload) + incoming
      ensures r.Packet? ==> Productive(grants) + |Frame(r.op, r.payload)| >= Productive(old(grants))
      ensures r.Blocked? <==> !block && !old(Down()) && old(Blocking(Least(HEADER, |incoming|)))
      ensures r.Blocked? ==> incoming == old(incoming) && grants == old(grants)[1..]
      ensures r.Refused? ==> |old(incoming)| >= HEADER && old(incoming)[0] > 5 && incoming == old(incoming)[HEADER..]
      ensures r.Lost? ==> Down()
      ensures old(Down()) ==> r.Lost?
      ensures forall op: Byte, payload: Payload :: Comes(old(incoming), old(grants), op, payload) ==>
        r.Blocked? || r == Packet(op, payload)
    {
      hide FromBigEndian, BigEndian, Pow256, Productive, Allowance, Comes, Frame;
      ghost var s, gs := incoming, grants;
      NoneWhenDown(gs);
      var n, header;
      if block {
        n, header := ReceiveAll(HEADER);
      } else {
        n, header := TryReceiveAll(HEADER);
        if n == -1 {
          return Blocked;
        }
      }
      if n == 0 {
        NoneComes(s, gs, |header|);
        return Lost;
      }
      var op, size := header[0], FromBigEndian(header[1..]);
      BytesRoundTrip(header[1..]);
      WhatComes(s, gs, header);
      if op > 5 {
        return Refused;
      }
      ProductiveAllowed(grants);
      var payload;
      n, payload := ReceiveAll(size);
      if size > 0 && n == 0 {
        return Lost;
      }
      r := Packet(op, payload);
      assert header == [op] + BigEndian(size, 8);
      Taken(s, header, payload, incoming);
      FrameIs(op, header, payload);
      OnlyOneComes(s, gs, op, payload, incoming);
    }

    /** The next `n` packets. Of a stream of packets, cut off anywhere, the first ones are read,
        each once and in order, until there are `n` of them or the connection is down. */
    method ReadPackets(n: nat, ghost ms: seq<Message>) returns (got: seq<Message>)
      requires Sendable(ms) && incoming <= Frames(ms)
      modifies `grants, `incoming
      ensures got <= ms && |got| <= n
      ensures |got| == n ==> old(incoming) == Frames(got) + incoming
      ensures |got| < n ==> Down()
      ensures n <= |ms| && old(incoming) == Frames(ms) && Productive(old(grants)) >= |Frames(ms)| ==> |got| == n
    {
      hide Frames, Frame, Sendable, Pow256, Productive, Allowance, Comes;
      got := [];
      NoFrames();
      assert ms[0..] == ms;
      ghost var enough := old(incoming) == Frames(ms) && Productive(old(grants)) >= |Frames(ms)|;
      while |got| < n
        invariant |got| <= n && got <= ms && incoming <= Frames(ms[|got|..])
        invariant old(incoming) == Frames(got) + incoming
        invariant enough ==> incoming == Frames(ms[|got|..]) && Productive(grants) >= |incoming|
      {
        ghost var was, left := incoming, ms[|got|..];
        OthersSendable(ms, |got|);
        if enough && |got| < |ms| {
          FirstComes(left, grants);
        }
        var r := ReadNextPacket(true);
        if r.Refused? {
          FirstIsKnown(left, was);
          assert false;
        }
        if r.Lost? {
          return;
        }
        var m := Message(r.op, r.payload);
        FirstOfFrames(left, m, was, incoming);
        FramesMore(got, m);
        if enough {
          RestOfFrames(left, incoming);
        }
        got := got + [m];
        assert left[1..] == ms[|got|..];
      }
    }
  }

  /** The bytes begin with this packet, and there are calls enough to read it. */
  predicate Comes(s: Payload, gs: seq<Grant>, op: Byte, payload: Payload) {
    op <= 5 && |payload| < Pow256(8) && Frame(op, payload) <= s && Productive(gs) >= |Frame(op, payload)|
  }

  lemma NoneWhenDown(gs: seq<Grant>)
    ensures gs == [] || gs[0].Closed? ==> Allowance(gs) == Productive(gs) == 0
  {
  }

  lemma NoneComes(s: Payload, gs: seq<Grant>, came: nat)
    requires came == Least(HEADER, Least(|s|, Allowance(gs))) < HEADER
    ensures forall op: Byte, payload: Payload :: !Comes(s, gs, op, payload)
  {
    hide Pow256, Productive, Allowance;
    ProductiveAllowed(gs);
  }

  /** The first nine bytes tell what may come. */
  lemma WhatComes(s: Payload, gs: seq<Grant>, header: Payload)
    requires |s| >= HEADER && header == s[..HEADER]
    ensures forall op: Byte, payload: Payload :: Comes(s, gs, op, payload) ==>
      && op == header[0] <= 5 && |payload| == FromBigEndian(header[1..])
      && |payload| <= |s| - HEADER && Productive(gs) >= HEADER + |payload|
  {
    hide Pow256, Productive, BigEndian, FromBigEndian;
    forall op: Byte, payload: Payload | Comes(s, gs, op, payload)
      ensures op == header[0] && |payload| == FromBigEndian(header[1..])
    {
      var f := Frame(op, payload);
      assert header == s[..|f|][..HEADER] && header[1..] == BigEndian(|payload|, 8);
      NumberRoundTrip(|payload|, 8);
    }
  }

  lemma FrameIs(op: Byte, header: Payload, payload: Payload)
    requires header == [op] + BigEndian(|payload|, 8)
    ensures Frame(op, payload) == header + payload
  {
  }

  lemma OnlyOneComes(s: Payload, gs: seq<Grant>, op: Byte, payload: Payload, rest: Payload)
    requires |payload| < Pow256(8) && s == Frame(op, payload) + rest
    ensures forall op': Byte, payload': Payload :: Comes(s, gs, op', payload') ==> op' == op && payload' == payload
  {
    hide Pow256, Productive;
    forall op': Byte, payload': Payload | Comes(s, gs, op', payload') ensures op' == op && payload' == payload {
      var f := Frame(op', payload');
      assert s == f + s[|f|..];
      hide Frame;
      FrameSplits(op, payload, rest, op', payload', s[|f|..]);
    }
  }

  lemma FirstComes(ms: seq<Message>, gs: seq<Grant>)
    requires ms != [] && Sendable(ms) && Productive(gs) >= |Frames(ms)|
    ensures Comes(Frames(ms), gs, ms[0].op, ms[0].payload)
  {
    hide Pow256, Frame, Productive;
  }

  lemma RestOfFrames(ms: seq<Message>, rest: Payload)
    requires ms != [] && Frames(ms) == Frame(ms[0].op, ms[0].payload) + rest
    ensures rest == Frames(ms[1..])
  {
    hide Frame;
    var f := Frame(ms[0].op, ms[0].payload);
    ByteBuffer.Same(f, rest, f, Frames(ms[1..]));
  }

  /** Two ends of a connection: what the one sends, whole or broken off, the other reads in `n`
      reads; all of it, if both are allowed enough calls that move something. */
  method Carry(a: Socket, b: Socket, data: Payload, n: nat, ghost ms: seq<Message>) returns (got: seq<Message>)
    requires a != b && a.outgoing == [] && Sendable(ms) && data == Frames(ms)
    modifies a`grants, a`outgoing, b`grants, b`incoming
    ensures got <= ms && |got| <= n && (|got| < n ==> b.Down())
    ensures n == |ms| && !b.Down() ==> got == ms
    ensures n == |ms| && !b.Down() && a.outgoing == data ==> b.incoming == []
    ensures n == |ms| && Productive(old(a.grants)) >= |data| && Productive(old(b.grants)) >= |data| ==> got == ms
  {
    hide Frames, Sendable;
    ProductiveAllowed(a.grants);
    var sent := a.SendAll(data);
    b.incoming := a.outgoing;
    assert [] + data == data && data[..|data|] == data;
    got := b.ReadPackets(n, ms);
  }

  lemma NoFrames()
    ensures Frames([]) == []
  {
  }

  lemma OthersSendable(ms: seq<Message>, i: nat)
    requires Sendable(ms) && i <= |ms|
    ensures Sendable(ms[i..])
  {
  }

  lemma FirstIsKnown(ms: seq<Message>, s: Payload)
    requires Sendable(ms) && s <= Frames(ms) && s != []
    ensures s[0] <= 5
  {
    assert s[0] == Frames(ms)[0];
  }

  lemma Further(s: Payload, i: nat, n: nat)
    requires i + n <= |s|
    ensures s[..i] + s[i..][..n] == s[..i + n] && s[i..][n..] == s[i + n..]
  {
  }

  lemma Taken(s: Payload, a: Payload, b: Payload, rest: Payload)
    requires |a| + |b| <= |s| && a == s[..|a|] && b == s[|a|..][..|b|] && rest == s[|a|..][|b|..]
    ensures s == a + b + rest
  {
  }
}
