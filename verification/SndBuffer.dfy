/** The sender's buffer: a circular chain of blocks from which data is released in front,
    sent in the middle and appended behind.  When it runs full, fresh blocks are spliced in. */
module SndBuffer {
  import opened Bytes
  import opened Ring

  class Block {
    var data: Payload
    var next: Block?

    constructor ()
      ensures data == [] && next == null
    {
      data, next := [], null;
    }
  }

  /** `data` cut into packets of `mss` bytes, the last one possibly shorter. */
  function Chunks(data: seq<Byte>, mss: int): (ps: seq<Payload>)
    requires mss > 0
    ensures forall i :: 0 <= i < |ps| ==> 0 < |ps[i]| <= mss
  {
    if |data| == 0 then []
    else if |data| <= mss then [data]
    else [data[..mss]] + Chunks(data[mss..], mss)
  }

  lemma FirstChunk(data: seq<Byte>, mss: int)
    requires mss > 0 && |data| > 0
    ensures var n := if |data| > mss then mss else |data|;
            |Chunks(data, mss)| > 0 && Chunks(data, mss)[0] == data[..n]
            && Chunks(data, mss)[1..] == Chunks(data[n..], mss)
  {
  }

  lemma NoChunks(data: seq<Byte>, mss: int)
    requires mss > 0
    ensures |Chunks(data, mss)| == 0 <==> |data| == 0
  {
  }

  /** Packet `i` of `ps` is cut off at `off`; the rest of the data gives the rest of them. */
  lemma NextChunk(data: seq<Byte>, off: int, mss: int, ps: seq<Payload>, i: int)
    requires mss > 0 && 0 <= off <= |data| && 0 <= i < |ps| && Chunks(data[off..], mss) == ps[i..]
    ensures var n := if |data| - off > mss then mss else |data| - off;
            off + n <= |data| && n > 0 && ps[i] == data[off..off + n] && Chunks(data[off + n..], mss) == ps[i + 1..]
  {
    hide Chunks;
    NoChunks(data[off..], mss);
    FirstChunk(data[off..], mss);
    var n := if |data| - off > mss then mss else |data| - off;
    assert data[off..][n..] == data[off + n..] && data[off..][..n] == data[off..off + n];
    assert ps[i..][0] == ps[i] && ps[i..][1..] == ps[i + 1..];
  }

  /** Cutting into packets loses nothing and adds nothing. */
  lemma {:induction false} FlatChunks(data: seq<Byte>, mss: int)
    requires mss > 0
    ensures Flat(Chunks(data, mss)) == data
  {
    if 0 < |data| <= mss {
      assert Flat([data]) == data + Flat([data][1..]);
    } else if |data| > mss {
      FlatChunks(data[mss..], mss);
      var ps := Chunks(data[mss..], mss);
      assert ([data[..mss]] + ps)[1..] == ps;
      assert data[..mss] + data[mss..] == data;
    }
  }

  /** Every packet but the last is full: packet `i` starts where `i` full ones end. */
  lemma {:induction false} ChunkAt(data: seq<Byte>, mss: int, i: nat)
    requires mss > 0 && i < |Chunks(data, mss)|
    ensures i * mss < |data|
    ensures Chunks(data, mss)[i] == data[i * mss..if (i + 1) * mss < |data| then (i + 1) * mss else |data|]
    decreases i
  {
    if i > 0 {
      ChunkAt(data[mss..], mss, i - 1);
      assert i * mss == (i - 1) * mss + mss;
      SliceOfRest(data, mss, (i - 1) * mss, if i * mss < |data| - mss then i * mss else |data| - mss);
    }
  }

  lemma SliceOfRest(data: seq<Byte>, from: nat, a: nat, b: nat)
    requires from <= |data| && a <= b <= |data| - from
    ensures data[from..][a..b] == data[from + a..from + b]
  {
  }

  /** The number of packets is the length divided by `mss`, rounded up. */
  function ChunkCount(len: int, mss: int): int
    requires mss > 0
  {
    if len % mss != 0 then len / mss + 1 else len / mss
  }

  lemma {:induction false} ChunksCounted(data: seq<Byte>, mss: int)
    requires mss > 0
    ensures |Chunks(data, mss)| == ChunkCount(|data|, mss)
    decreases |data|
  {
    hide ChunkCount;
    if |data| <= mss {
      CountFew(|data|, mss);
    } else {
      ChunksCounted(data[mss..], mss);
      CountMore(|data| - mss, mss);
    }
  }

  lemma CountFew(n: nat, mss: int)
    requires 0 <= n <= mss && mss > 0
    ensures ChunkCount(n, mss) == if n == 0 then 0 else 1
  {
    var q := if n == mss then 1 else 0;
    Quotient(n, mss, q, if n == mss then 0 else n);
  }

  lemma CountMore(m: nat, mss: int)
    requires mss > 0
    ensures ChunkCount(m + mss, mss) == ChunkCount(m, mss) + 1
  {
    var q, r := m / mss, m % mss;
    DivMod(m, mss);
    assert m + mss == (q + 1) * mss + r;
    Quotient(m + mss, mss, q + 1, r);
  }

  lemma DivMod(n: nat, mss: int)
    requires mss > 0
    ensures n == n / mss * mss + n % mss && 0 <= n % mss < mss
  {
  }

  lemma Quotient(n: nat, mss: int, q: int, r: int)
    requires mss > 0 && 0 <= r < mss && n == q * mss + r
    ensures n / mss == q && n % mss == r
  {
    DivMod(n, mss);
    QuotientUnique(mss, q, r, n / mss, n % mss);
  }

  ghost function Succ(i: int, n: int): int {
    if i + 1 < n then i + 1 else 0
  }

  ghost predicate Distinct(bs: seq<Block>) {
    forall i, j :: 0 <= i < j < |bs| ==> bs[i] != bs[j]
  }

  ghost function Spliced(bs: seq<Block>, at: int, chain: seq<Block>): (r: seq<Block>)
    requires 0 <= at <= |bs|
    ensures |r| == |bs| + |chain|
    ensures forall i :: 0 <= i < at ==> r[i] == bs[i]
    ensures forall i :: at <= i < at + |chain| ==> r[i] == chain[i - at]
    ensures forall i :: at + |chain| <= i < |r| ==> r[i] == bs[i - |chain|]
  {
    bs[..at] + chain + bs[at..]
  }

  lemma SplicedDistinct(bs: seq<Block>, at: int, chain: seq<Block>)
    requires 0 <= at <= |bs| && Distinct(bs) && Distinct(chain)
    requires forall i, j :: 0 <= i < |bs| && 0 <= j < |chain| ==> bs[i] != chain[j]
    ensures Distinct(Spliced(bs, at, chain))
  {
  }

  /** With the block before the splice pointing at the chain and the chain's last at the block
      behind, the whole ring is linked. */
  lemma SplicedNext(bs: seq<Block>, at: int, chain: seq<Block>)
    requires 0 < at <= |bs| && |chain| > 0
    requires forall i :: 0 <= i < |bs| && i != at - 1 ==> bs[i].next == bs[Succ(i, |bs|)]
    requires bs[at - 1].next == chain[0] && chain[|chain| - 1].next == bs[Succ(at - 1, |bs|)]
    requires forall i :: 0 <= i < |chain| - 1 ==> chain[i].next == chain[i + 1]
    ensures var r := Spliced(bs, at, chain); forall i :: 0 <= i < |r| ==> r[i].next == r[Succ(i, |r|)]
  {
    hide Spliced;
    var r, n := Spliced(bs, at, chain), |chain|;
    forall i | 0 <= i < |r| ensures r[i].next == r[Succ(i, |r|)] {
      if i < at {
        assert r[i] == bs[i];
      } else if i < at + n {
        assert r[i] == chain[i - at];
      } else {
        assert r[i] == bs[i - n];
      }
    }
  }

  ghost function Rotated(bs: seq<Block>, offset: int): (r: seq<Block>)
    requires 0 <= offset < |bs|
    ensures |r| == |bs| && forall k :: 0 <= k < |bs| ==>
              r[k] == bs[if k + offset < |bs| then k + offset else k + offset - |bs|]
  {
    bs[offset..] + bs[..offset]
  }

  lemma SameBlocks(bs: seq<Block>, offset: int)
    requires 0 <= offset < |bs|
    ensures (set b | b in Rotated(bs, offset)) == set b | b in bs
  {
    assert bs == bs[..offset] + bs[offset..];
  }

  lemma RotatedChain(bs: seq<Block>, offset: int)
    requires 0 <= offset < |bs| && Distinct(bs)
    requires forall i :: 0 <= i < |bs| ==> bs[i].next == bs[Succ(i, |bs|)]
    ensures Distinct(Rotated(bs, offset))
    ensures forall i :: 0 <= i < |bs| ==> Rotated(bs, offset)[i].next == Rotated(bs, offset)[Succ(i, |bs|)]
  {
    hide Rotated;
    var r, n := Rotated(bs, offset), |bs|;
    forall k | 0 <= k < n
      ensures r[k].next == r[Succ(k, n)]
    {
      var j := if k + offset < n then k + offset else k + offset - n;
      assert r[k] == bs[j] && bs[j].next == bs[Succ(j, n)];
    }
    forall i, j | 0 <= i < j < n
      ensures r[i] != r[j]
    {
    }
  }

  ghost function DataOf(bs: seq<Block>): (ps: seq<Payload>)
    reads bs
    ensures |ps| == |bs| && forall i :: 0 <= i < |bs| ==> ps[i] == bs[i].data
  {
    if |bs| == 0 then [] else [bs[0].data] + DataOf(bs[1..])
  }

  /** The first blocks hold `ps`. */
  ghost predicate Filled(bs: seq<Block>, ps: seq<Payload>)
    reads bs
  {
    |ps| <= |bs| && forall k :: 0 <= k < |ps| ==> bs[k].data == ps[k]
  }

  lemma RotatedData(bs: seq<Block>, offset: int, count: int)
    requires 0 <= offset <= count < |bs|
    ensures DataOf(Rotated(bs, offset)[..count - offset]) == DataOf(bs[..count])[offset..]
  {
    hide DataOf, Rotated;
  }

  /** `n` fresh blocks in a row. */
  method MakeChain(n: int) returns (first: Block, last: Block, ghost chain: seq<Block>)
    requires n > 0
    ensures |chain| == n && Distinct(chain) && first == chain[0] && last == chain[n - 1]
    ensures forall i :: 0 <= i < n ==> fresh(chain[i])
    ensures forall i :: 0 <= i < n - 1 ==> chain[i].next == chain[i + 1]
  {
    first := new Block();
    last, chain := first, [first];
    var i := 1;
    while i < n
      invariant 1 <= i <= n && |chain| == i && Distinct(chain) && first == chain[0] && last == chain[i - 1]
      invariant forall j :: 0 <= j < i ==> fresh(chain[j])
      invariant forall j :: 0 <= j < i - 1 ==> chain[j].next == chain[j + 1]
    {
      var b := new Block();
      last.next := b;
      last := b;
      chain := chain + [b];
      i := i + 1;
    }
  }

  class SndBuffer {
    const mss: int
    const unitSize: int // blocks per splice
    var firstBlock: Block
    var currBlock: Block
    var lastBlock: Block
    var size: int
    var count: int

    ghost var ring: seq<Block> // the blocks in chain order, from the first one on
    ghost var curr: int        // how many blocks have been sent

    ghost predicate Valid()
      reads this, ring
    {
      && mss > 0 && unitSize > 0
      && 0 <= curr <= count < size == |ring| && Distinct(ring)
      && (forall i :: 0 <= i < |ring| ==> ring[i].next == ring[Succ(i, |ring|)])
      && firstBlock == ring[0] && currBlock == ring[curr] && lastBlock == ring[count]
    }

    ghost function Blocks(): set<Block>
      reads this
    {
      set b | b in ring
    }

    /** The packets held, in order. */
    ghost function Contents(): (ps: seq<Payload>)
      requires 0 <= count <= |ring|
      reads this, ring
      ensures |ps| == count
    {
      DataOf(ring[..count])
    }

    constructor (size: int, mss: int)
      requires size > 0 && mss > 0
      ensures Valid() && this.mss == mss && Contents() == [] && curr == 0
      ensures fresh(Blocks())
    {
      var first, last, chain := MakeChain(size);
      last.next := first;
      this.size, this.mss, this.unitSize, this.count := size, mss, size, 0;
      firstBlock, currBlock, lastBlock := first, first, first;
      ring, curr := chain, 0;
    }

    /** The chain goes in between the last block and the one behind it. */
    method LinkIn(first: Block, last: Block, ghost chain: seq<Block>)
      requires Valid() && |chain| > 0 && Distinct(chain) && first == chain[0] && last == chain[|chain| - 1]
      requires forall i, j :: 0 <= i < |ring| && 0 <= j < |chain| ==> ring[i] != chain[j]
      requires forall i :: 0 <= i < |chain| - 1 ==> chain[i].next == chain[i + 1]
      modifies lastBlock`next, last`next
      ensures forall i :: 0 <= i < |ring| && i != count ==> ring[i].next == ring[Succ(i, |ring|)]
      ensures ring[count].next == chain[0] && chain[|chain| - 1].next == ring[Succ(count, |ring|)]
      ensures forall i :: 0 <= i < |chain| - 1 ==> chain[i].next == chain[i + 1]
    {
      last.next := lastBlock.next;
      lastBlock.next := first;
    }

    /** Splices fresh blocks in behind the last one. */
    method Increase()
      requires Valid()
      modifies this, ring
      ensures Valid() && fresh(Blocks() - old(Blocks()))
      ensures size == old(size) + unitSize && count == old(count) && curr == old(curr)
      ensures Contents() == old(Contents())
    {
      hide Spliced, DataOf, Distinct;
      var nblk, pb, chain := MakeChain(unitSize);
      LinkIn(nblk, pb, chain);
      size := size + unitSize;
      ghost var was := ring;
      ring := Spliced(was, count + 1, chain);
      SplicedDistinct(was, count + 1, chain);
      SplicedNext(was, count + 1, chain);
      assert ring[..count] == was[..count];
    }

    /** Appends `data`, cut into packets, making room first if there is too little. */
    method AddBuffer(data: seq<Byte>)
      requires Valid()
      modifies this, ring
      ensures Valid() && fresh(Blocks() - old(Blocks()))
      ensures Contents() == old(Contents()) + Chunks(data, mss) && curr == old(curr)
    {
      var len := |data|;
      var n := len / mss;
      if len % mss != 0 {
        n := n + 1;
      }
      ChunksCounted(data, mss);
      while n + count >= size
        invariant Valid() && count == old(count) && curr == old(curr)
        invariant fresh(Blocks() - old(Blocks())) && Contents() == old(Contents())
        decreases n + count - size
      {
        Increase();
      }
      Fill(data, n);
    }

    method WriteBlock(s: Block, packet: Payload, ghost ps: seq<Payload>)
      requires Valid() && Filled(ring, ps) && |ps| < |ring| && s == ring[|ps|]
      modifies s`data
      ensures Valid() && Filled(ring, ps + [packet])
    {
      s.data := packet;
    }

    lemma NextBlock(k: int)
      requires Valid() && 0 <= k < |ring| - 1
      ensures ring[k].next == ring[k + 1]
    {
    }

    lemma Bounds()
      requires Valid()
      ensures mss > 0 && 0 <= count < size == |ring| && lastBlock == ring[count] && Filled(ring, Contents())
    {
    }

    lemma OneFurther(was: seq<Payload>, ps: seq<Payload>, i: int)
      requires 0 <= i < |ps|
      ensures was + ps[..i] + [ps[i]] == was + ps[..i + 1]
    {
    }

    /** The first `n` blocks behind the last one are in use from now on. */
    method Extend(n: int, s: Block, ghost ps: seq<Payload>)
      requires Valid() && 0 <= n && count + n < size && s == ring[count + n]
      requires Filled(ring, ps) && |ps| == count + n
      modifies this`count, this`lastBlock
      ensures Valid() && Contents() == ps
    {
      hide Distinct;
      lastBlock := s;
      count := count + n;
    }

    /** Writes `data` into the `n` blocks behind the last one, for which there is room. */
    method Fill(data: seq<Byte>, n: int)
      requires Valid() && n == |Chunks(data, mss)| && n + count < size
      modifies this`count, this`lastBlock, ring
      ensures Valid()
      ensures Contents() == old(Contents()) + Chunks(data, mss)
    {
      hide Chunks, Filled, Valid, Contents;
      Bounds();
      var s := lastBlock;
      var i := 0;
      ghost var ps, was := Chunks(data, mss), Contents();
      var off := 0; // i * mss
      assert was + ps[..0] == was && data[0..] == data;
      while i < n
        invariant unchanged(this) && Valid()
        invariant 0 <= i <= n && s == ring[count + i]
        invariant 0 <= off <= |data| && Chunks(data[off..], mss) == ps[i..]
        invariant Filled(ring, was + ps[..i])
      {
        var pktlen := |data| - off;
        if pktlen > mss {
          pktlen := mss;
        }
        NextChunk(data, off, mss, ps, i);
        WriteBlock(s, data[off..off + pktlen], was + ps[..i]);
        OneFurther(was, ps, i);
        NextBlock(count + i);
        s := s.next;
        off := off + pktlen;
        i := i + 1;
      }
      assert ps[..n] == ps;
      Extend(n, s, was + ps);
    }

    /** The next packet that has never been sent, if there is one. */
    method ReadData() returns (r: Option<Payload>)
      requires Valid()
      modifies this`currBlock, this`curr
      ensures Valid() && Contents() == old(Contents())
      ensures old(curr) == |Contents()| ==> r == None && curr == old(curr)
      ensures old(curr) < |Contents()| ==> r == Some(Contents()[old(curr)]) && curr == old(curr) + 1
    {
      if currBlock == lastBlock {
        return None;
      }
      r := Some(currBlock.data);
      currBlock := currBlock.next;
      curr := curr + 1;
    }

    /** Packet number `offset` of those held. */
    method ReadDataAt(offset: int) returns (data: Payload)
      requires Valid() && 0 <= offset < |Contents()|
      ensures data == Contents()[offset]
    {
      var p := firstBlock;
      var i := 0;
      while i < offset
        invariant 0 <= i <= offset && p == ring[i]
      {
        p := p.next;
        i := i + 1;
      }
      data := p.data;
    }

    /** Moves the first-block pointer `offset` blocks on. */
    method Advance(offset: int)
      requires Valid() && 0 <= offset <= count
      modifies this`firstBlock
      ensures firstBlock == ring[offset]
    {
      var i := 0;
      while i < offset
        invariant 0 <= i <= offset && firstBlock == ring[i]
      {
        firstBlock := firstBlock.next;
        i := i + 1;
      }
    }

    /** Releases the first `offset` packets, all of which have been sent. */
    method AckData(offset: int)
      requires Valid() && 0 <= offset <= curr
      modifies this
      ensures Valid() && Blocks() == old(Blocks())
      ensures Contents() == old(Contents())[offset..] && curr == old(curr) - offset
    {
      hide DataOf, Rotated, Distinct;
      RotatedChain(ring, offset);
      SameBlocks(ring, offset);
      RotatedData(ring, offset, count);
      Advance(offset);
      count := count - offset;
      ring, curr := Rotated(ring, offset), curr - offset;
    }

    function GetCurrBufSize(): (n: int)
      requires Valid()
      reads this, ring
      ensures n == |Contents()|
    {
      count
    }
  }
}
