/** The receiver's buffer: a ring of packets, of which a leading part has been acknowledged
    and may be read.  `RcvBuf` is its value in terms of stream positions; the class below keeps
    the packets in a fixed array. */
module RcvBuffer {
  import opened Ring
  import opened Bytes

  /** Packets are held at positions from `start` on; those before `ack` are readable, and the
      first `notch` bytes of the one at `start` have been read already. */
  datatype RcvBuf = RcvBuf(size: int, start: int, ack: int, held: map<int, Payload>, notch: nat)

  predicate BufOk(b: RcvBuf) {
    && 0 < b.size && b.start <= b.ack < b.start + b.size
    && (forall x :: x in b.held ==> b.start <= x < b.start + b.size - 1)
    && (forall x :: b.start <= x < b.ack ==> x in b.held)
    && (b.notch > 0 ==> b.start < b.ack && b.notch < |b.held[b.start]|)
  }

  function DataSize(b: RcvBuf): int {
    b.ack - b.start
  }

  /** One slot stays empty, to tell a full ring from an empty one. */
  function AvailSize(b: RcvBuf): int {
    b.size - DataSize(b) - 1
  }

  /** The bytes of the packets from position `a` up to position `b`. */
  function Line(held: map<int, Payload>, a: int, b: int): seq<Byte>
    requires forall x :: a <= x < b ==> x in held
    decreases b - a
  {
    if a >= b then [] else held[a] + Line(held, a + 1, b)
  }

  lemma {:induction false} LineSame(h: map<int, Payload>, h': map<int, Payload>, a: int, b: int)
    requires forall x :: a <= x < b ==> x in h && x in h' && h[x] == h'[x]
    ensures Line(h, a, b) == Line(h', a, b)
    decreases b - a
  {
    if a < b { LineSame(h, h', a + 1, b); }
  }

  lemma {:induction false} LineConcat(h: map<int, Payload>, a: int, b: int, c: int)
    requires a <= b <= c && forall x :: a <= x < c ==> x in h
    ensures Line(h, a, c) == Line(h, a, b) + Line(h, b, c)
    decreases b - a
  {
    if a < b { LineConcat(h, a + 1, b, c); }
  }

  /** The bytes a reader can still get. */
  function Readable(b: RcvBuf): seq<Byte>
    requires BufOk(b)
  {
    if b.start == b.ack then [] else Line(b.held, b.start, b.ack)[b.notch..]
  }

  /** Packet number `b.ack + offset` arrives. */
  function Add(b: RcvBuf, offset: int, p: Payload): (RcvBuf, bool) {
    if b.ack + offset in b.held then (b, false)
    else (b.(held := b.held[b.ack + offset := p]), true)
  }

  /** `len` more packets become readable. */
  function Acknowledge(b: RcvBuf, len: int): RcvBuf {
    b.(ack := b.ack + len)
  }

  /** Reads up to `rs` bytes: the remaining buffer and the bytes. */
  function Read(b: RcvBuf, rs: int): (RcvBuf, seq<Byte>)
    requires BufOk(b)
    decreases b.ack - b.start
  {
    if b.start == b.ack || rs <= 0 then (b, [])
    else
      var unit := b.held[b.start];
      var left := |unit| - b.notch;
      var n := if left > rs then rs else left;
      var bytes := unit[b.notch..b.notch + n];
      if rs > n || rs == left then
        var (b', more) := Read(DropFirst(b), rs - n);
        (b', bytes + more)
      else
        (b.(notch := b.notch + rs), bytes)
  }

  function DropFirst(b: RcvBuf): (b': RcvBuf)
    requires BufOk(b) && b.start < b.ack
    ensures BufOk(b')
  {
    b.(start := b.start + 1, held := b.held - {b.start}, notch := 0)
  }

  /** A read of `rs` bytes takes exactly the first bytes of what is readable, as many as asked
      for and available, and touches nothing at or behind the acknowledged position. */
  ghost predicate Takes(b: RcvBuf, rs: int)
    requires BufOk(b)
  {
    var (b', bytes) := Read(b, rs);
    var n := if rs <= 0 then 0 else if rs < |Readable(b)| then rs else |Readable(b)|;
    && BufOk(b') && bytes == Readable(b)[..n] && Readable(b') == Readable(b)[n..]
    && b'.ack == b.ack && b'.size == b.size && b.start <= b'.start <= b.ack
    && (forall x :: x in b'.held <==> x in b.held && b'.start <= x)
    && (forall x :: x in b'.held ==> b'.held[x] == b.held[x])
  }

  lemma {:induction false} ReadIsTake(b: RcvBuf, rs: int)
    requires BufOk(b)
    ensures Takes(b, rs)
    decreases b.ack - b.start
  {
    if b.start == b.ack || rs <= 0 {
      ReadNothing(b);
    } else if rs >= |b.held[b.start]| - b.notch {
      ReadIsTake(DropFirst(b), rs - (|b.held[b.start]| - b.notch));
      ReadAcross(b, rs);
    } else {
      ReadWithin(b, rs);
    }
  }

  /** The read takes the whole first packet and goes on. */
  lemma ReadAcross(b: RcvBuf, rs: int)
    requires BufOk(b) && b.start < b.ack && 0 < rs && |b.held[b.start]| - b.notch <= rs
    requires Takes(DropFirst(b), rs - (|b.held[b.start]| - b.notch))
    ensures Takes(b, rs)
  {
    hide Readable, Line;
    var left := |b.held[b.start]| - b.notch;
    ReadableSplit(b);
    var rest := Readable(DropFirst(b));
    TakeAcross(b.held[b.start][b.notch..], rest, if rs - left < |rest| then rs - left else |rest|);
  }

  /** The read ends inside the first packet. */
  lemma ReadWithin(b: RcvBuf, rs: int)
    requires BufOk(b) && b.start < b.ack && 0 < rs < |b.held[b.start]| - b.notch
    ensures Takes(b, rs)
  {
    hide Readable, Line;
    var unit, b' := b.held[b.start], b.(notch := b.notch + rs);
    ReadableSplit(b);
    ReadableSplit(b');
    assert DropFirst(b') == DropFirst(b);
    TakeWithin(unit[b.notch..], Readable(DropFirst(b)), rs);
    assert unit[b.notch..][rs..] == unit[b.notch + rs..];
  }

  lemma ReadNothing(b: RcvBuf)
    requires BufOk(b)
    ensures b.start == b.ack ==> Readable(b) == []
  {
  }

  lemma TakeAcross(u: seq<Byte>, v: seq<Byte>, m: nat)
    requires m <= |v|
    ensures (u + v)[..|u| + m] == u + v[..m] && (u + v)[|u| + m..] == v[m..]
  {
  }

  lemma TakeWithin(u: seq<Byte>, v: seq<Byte>, m: nat)
    requires m <= |u|
    ensures (u + v)[..m] == u[..m] && (u + v)[m..] == u[m..] + v
  {
  }

  /** What is readable is the rest of the first packet and then what its successors hold. */
  lemma ReadableSplit(b: RcvBuf)
    requires BufOk(b) && b.start < b.ack
    ensures Readable(b) == b.held[b.start][b.notch..] + Readable(DropFirst(b))
  {
    LineSame(b.held, DropFirst(b).held, b.start + 1, b.ack);
  }

  /** Adding a packet leaves what is readable alone; acknowledging appends to it. */
  lemma AddKeepsReadable(b: RcvBuf, offset: int, p: Payload)
    requires BufOk(b) && 0 <= offset < AvailSize(b)
    ensures BufOk(Add(b, offset, p).0) && Readable(Add(b, offset, p).0) == Readable(b)
    ensures Add(b, offset, p).1 <==> b.ack + offset !in b.held
  {
    hide Line;
    LineSame(b.held, Add(b, offset, p).0.held, b.start, b.ack);
  }

  lemma AcknowledgeAppends(b: RcvBuf, len: int)
    requires BufOk(b) && len >= 0 && forall x :: b.ack <= x < b.ack + len ==> x in b.held
    ensures BufOk(Acknowledge(b, len))
    ensures Readable(Acknowledge(b, len)) == Readable(b) + Line(b.held, b.ack, b.ack + len)
  {
    if len > 0 { assert b.ack + len - 1 in b.held; }
    LineConcat(b.held, b.start, b.ack, b.ack + len);
    if b.start < b.ack {
      assert Line(b.held, b.start, b.ack) == b.held[b.start] + Line(b.held, b.start + 1, b.ack);
    }
  }

  class RcvBuffer {
    const size: int
    const unit: array<Option<Payload>>
    var startPos: int   // the first packet to read
    var lastAckPos: int // the slot behind the last readable packet
    var maxPos: int     // the furthest offset that has arrived
    var notch: nat

    ghost var anchor: int // the position whose slot is 0
    ghost var buf: RcvBuf // the abstract value

    ghost predicate Valid()
      reads this, unit
    {
      Holds(startPos)
    }

    /** The invariant when reading has got to slot `p`. */
    ghost predicate Holds(p: int)
      reads this, unit
    {
      && BufOk(buf) && buf.size == size == unit.Length
      && p == Loc(size, anchor, buf.start) && lastAckPos == Loc(size, anchor, buf.ack)
      && notch == buf.notch
      && forall x :: buf.start <= x < buf.start + size ==> unit[Loc(size, anchor, x)] == Held(x)
    }

    ghost function Held(x: int): Option<Payload>
      reads this
    {
      if x in buf.held then Some(buf.held[x]) else None
    }

    /** An empty buffer whose first packet will be number `first`. */
    constructor (size: int, ghost first: int)
      requires 0 < size
      ensures Valid() && this.size == size && buf == RcvBuf(size, first, first, map[], 0) && fresh(unit)
    {
      this.size := size;
      unit := new Option<Payload>[size](_ => None);
      startPos, lastAckPos, maxPos, notch := 0, 0, 0, 0;
      anchor, buf := first, RcvBuf(size, first, first, map[], 0);
    }

    function GetRcvDataSize(): (n: int)
      requires Valid()
      reads this, unit
      ensures n == DataSize(buf)
    {
      LocAhead(size, anchor, buf.start, buf.ack - buf.start);
      if lastAckPos >= startPos then lastAckPos - startPos else size + lastAckPos - startPos
    }

    function GetAvailBufSize(): (n: int)
      requires Valid()
      reads this, unit
      ensures n == AvailSize(buf)
    {
      size - GetRcvDataSize() - 1
    }

    /** Stores the packet `offset` positions behind the acknowledged part, unless that slot is
        taken. */
    method AddData(data: Payload, offset: int) returns (added: bool)
      requires Valid() && 0 <= offset < AvailSize(buf)
      modifies this, unit
      ensures Valid() && anchor == old(anchor)
      ensures (buf, added) == Add(old(buf), offset, data)
    {
      var pos := SlotAt(offset);
      if offset > maxPos {
        maxPos := offset;
      }
      ghost var x := buf.ack + offset;
      AddKeepsReadable(buf, offset, data);
      assert unit[Loc(size, anchor, x)] == Held(x);
      if unit[pos] != None {
        return false;
      }
      unit[pos] := Some(data);
      buf := Add(buf, offset, data).0;
      added := true;
      forall y | buf.start <= y < buf.start + size
        ensures unit[Loc(size, anchor, y)] == Held(y)
      {
        if y != x { LocInjective(size, anchor, x, y); }
      }
    }

    method SlotAt(offset: int) returns (pos: int)
      requires Valid()
      ensures pos == Loc(size, anchor, buf.ack + offset) && 0 <= pos < size
    {
      LocStep(size, anchor, buf.ack, offset);
      pos := (lastAckPos + offset) % size;
    }

    /** Makes the next `len` packets readable; all of them have arrived. */
    method AckData(len: int)
      requires Valid() && len >= 0 && forall x :: buf.ack <= x < buf.ack + len ==> x in buf.held
      modifies this
      ensures Valid() && anchor == old(anchor)
      ensures buf == Acknowledge(old(buf), len)
    {
      AcknowledgeAppends(buf, len);
      lastAckPos := SlotAt(len);
      maxPos := maxPos - len;
      if maxPos < 0 {
        maxPos := 0;
      }
      buf := Acknowledge(buf, len);
    }

    lemma SameSlot(p: int)
      requires Holds(p)
      ensures p == lastAckPos <==> buf.start == buf.ack
      ensures buf.start < buf.ack ==> buf.start in buf.held && unit[p] == Some(buf.held[buf.start])
      ensures buf.start < buf.ack ==> notch <= |buf.held[buf.start]|
      ensures buf.start <= buf.ack && 0 <= p < unit.Length
    {
      if buf.start < buf.ack {
        LocInjective(size, anchor, buf.start, buf.ack);
        assert unit[Loc(size, anchor, buf.start)] == Held(buf.start);
      }
    }

    /** Empties slot `p`, the first in use, and moves on to the next one. */
    method FreeSlot(p: int) returns (p': int)
      requires Holds(p) && buf.start < buf.ack
      modifies this, unit
      ensures Holds(p') && buf == DropFirst(old(buf)) && notch == 0 && anchor == old(anchor)
      ensures buf.start == old(buf.start) + 1 && buf.ack == old(buf.ack) && lastAckPos == old(lastAckPos)
    {
      unit[p] := None;
      p' := p + 1;
      if p' == size {
        p' := 0;
      }
      notch := 0;
      ghost var x := buf.start;
      LocAhead(size, anchor, x, if size == 1 then 0 else 1);
      LocWraps(size, anchor, x);
      buf := DropFirst(buf);
      forall y | buf.start <= y < buf.start + size
        ensures unit[Loc(size, anchor, y)] == Held(y)
      {
        if y < x + size { LocInjective(size, anchor, x, y); }
      }
    }

    static lemma ReadStep(b: RcvBuf, rs: int)
      requires BufOk(b) && b.start < b.ack && rs > 0
      ensures var left := |b.held[b.start]| - b.notch;
              var n := if left > rs then rs else left;
              var piece := b.held[b.start][b.notch..b.notch + n];
              if rs > n || rs == left
              then Read(b, rs).0 == Read(DropFirst(b), rs - n).0
                   && Read(b, rs).1 == piece + Read(DropFirst(b), rs - n).1
              else Read(b, rs).0 == Read(b.(notch := b.notch + rs), 0).0
                   && Read(b, rs).1 == piece && n == rs && BufOk(b.(notch := b.notch + rs))
    {
    }

    static lemma ReadDone(b: RcvBuf, rs: int)
      requires BufOk(b) && (b.start == b.ack || rs <= 0)
      ensures Read(b, rs) == (b, [])
    {
    }

    /** Copies out up to `len` readable bytes and frees the packets they use up. */
    method ReadBuffer(len: int) returns (data: seq<Byte>)
      requires Valid()
      modifies this, unit
      ensures Valid() && anchor == old(anchor)
      ensures buf == Read(old(buf), len).0 && data == Read(old(buf), len).1
    {
      hide Read, BufOk, Line, DropFirst;
      var p := startPos;
      var lastack := lastAckPos;
      var rs := len;
      data := [];
      SameSlot(p);
      while p != lastack && rs > 0
        invariant Holds(p) && lastack == lastAckPos && anchor == old(anchor)
        invariant p == lastack <==> buf.start == buf.ack
        invariant Read(old(buf), len).0 == Read(buf, rs).0
        invariant Read(old(buf), len).1 == data + Read(buf, rs).1
        decreases buf.ack - buf.start, rs
      {
        SameSlot(p);
        var unitsize := |unit[p].value| - notch;
        if unitsize > rs {
          unitsize := rs;
        }
        data := data + unit[p].value[notch..notch + unitsize];
        ReadStep(buf, rs);
        if rs > unitsize || rs == |unit[p].value| - notch {
          p := FreeSlot(p);
        } else {
          notch := notch + rs;
          buf := buf.(notch := buf.notch + rs);
        }
        rs := rs - unitsize;
        SameSlot(p);
        if rs == 0 { ReadDone(buf, rs); }
      }
      ReadDone(buf, rs);
      startPos := p;
    }
  }
}
