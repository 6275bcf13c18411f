/** The streaming digest around its block function: a message fed in any pieces is folded, block
    by block, over the padding of RFC 1321. */
module Md5 {
  import opened Bytes

  const BLOCK := 64
  const WORD: nat := 0x1_0000_0000

  type Word = w: int | 0 <= w < 0x1_0000_0000

  datatype Abcd = Abcd(a: Word, b: Word, c: Word, d: Word)

  /** The transformation of the chaining value by one block of 64 bytes. */
  type BlockStep = (Abcd, Payload) -> Abcd

  function InitAbcd(): Abcd {
    Abcd(0x67452301, 0xefcdab89, 0x98badcfe, 0x10325476)
  }

  function Blocks(f: BlockStep, s: Abcd, m: Payload): Abcd
    decreases |m|
  {
    if |m| < BLOCK then s else Blocks(f, f(s, m[..BLOCK]), m[BLOCK..])
  }

  /** The bytes after the last full block. */
  function Rest(m: Payload): (r: Payload)
    ensures |r| == |m| % BLOCK
    decreases |m|
  {
    if |m| < BLOCK then m else Rest(m[BLOCK..])
  }

  lemma {:induction false} BlocksResume(f: BlockStep, s: Abcd, m: Payload, x: Payload)
    ensures Blocks(f, s, m + x) == Blocks(f, Blocks(f, s, m), Rest(m) + x)
    ensures Rest(m + x) == Rest(Rest(m) + x)
    decreases |m|
  {
    if |m| >= BLOCK {
      assert (m + x)[..BLOCK] == m[..BLOCK] && (m + x)[BLOCK..] == m[BLOCK..] + x;
      BlocksResume(f, f(s, m[..BLOCK]), m[BLOCK..], x);
    }
  }

  function Le32(w: Word): Payload {
    [w % 0x100, w / 0x100 % 0x100, w / 0x1_0000 % 0x100, w / 0x100_0000]
  }

  /** The low `k` bytes of a number, the lowest first. */
  function LittleEndian(n: nat, k: nat): (r: Payload)
    ensures |r| == k
  {
    if k == 0 then [] else [n % 0x100] + LittleEndian(n / 0x100, k - 1)
  }

  /** Section 3.1: at least one bit is added, up to 448 bits modulo 512. */
  function Zeros(n: nat): nat {
    (119 - n % BLOCK) % BLOCK
  }

  lemma ZerosFit(n: nat)
    ensures (n + 1 + Zeros(n)) % BLOCK == 56
    ensures forall k: nat {:trigger (n + 1 + k) % BLOCK} :: (n + 1 + k) % BLOCK == 56 ==> Zeros(n) <= k
  {
    var q, r := n / BLOCK, n % BLOCK;
    assert n == BLOCK * q + r;
    BlocksOff(r + 1 + Zeros(n), -q);
    forall k: nat {:trigger (n + 1 + k) % BLOCK} | (n + 1 + k) % BLOCK == 56 ensures Zeros(n) <= k {
      BlocksOff(r + 1 + k, -q);
      LeastZeros(r, k);
    }
  }

  lemma LeastZeros(r: nat, k: nat)
    requires r < BLOCK && (r + 1 + k) % BLOCK == 56
    ensures (119 - r) % BLOCK <= k
  {
  }

  /** Sections 3.1 and 3.2: a one bit, zeros, and the low 64 bits of the length in bits. */
  function Padded(m: Payload): Payload {
    m + [0x80] + seq(Zeros(|m|), _ => 0) + LittleEndian(8 * |m| % (WORD * WORD), 8)
  }

  function Digest(f: BlockStep, m: Payload): Payload {
    var s := Blocks(f, InitAbcd(), Padded(m));
    Le32(s.a) + Le32(s.b) + Le32(s.c) + Le32(s.d)
  }

  /** Nothing of a padded message is left over. */
  lemma PaddedIsWhole(m: Payload)
    ensures |Padded(m)| % BLOCK == 0
  {
    hide Zeros;
    assert |Padded(m)| == |m| + 1 + Zeros(|m|) + 8;
    ZerosFit(|m|);
    EightMore(|m| + 1 + Zeros(|m|));
  }

  lemma EightMore(n: nat)
    requires n % BLOCK == 56
    ensures (n + 8) % BLOCK == 0
  {
  }

  lemma OneByte(b: Byte, n: nat, k: nat)
    ensures LittleEndian(b + 0x100 * n, 1 + k) == [b] + LittleEndian(n, k)
  {
    assert (b + 0x100 * n) % 0x100 == b && (b + 0x100 * n) / 0x100 == n;
  }

  lemma WordBytes(w: Word)
    ensures w == w % 0x100 + 0x100 * (w / 0x100 % 0x100 + 0x100 * (w / 0x1_0000 % 0x100 + 0x100 * (w / 0x100_0000)))
  {
    assert w / 0x1_0000 == w / 0x100 / 0x100;
    assert w / 0x100_0000 == w / 0x1_0000 / 0x100;
  }

  lemma FourBytes(w: Word, n: nat, k: nat)
    ensures LittleEndian(w + WORD * n, 4 + k) == Le32(w) + LittleEndian(n, k)
  {
    WordBytes(w);
    BytesInOrder(w % 0x100, w / 0x100 % 0x100, w / 0x1_0000 % 0x100, w / 0x100_0000, n, k);
  }

  lemma BytesInOrder(b0: Byte, b1: Byte, b2: Byte, b3: Byte, n: nat, k: nat)
    ensures LittleEndian(b0 + 0x100 * (b1 + 0x100 * (b2 + 0x100 * b3)) + WORD * n, 4 + k) ==
      [b0, b1, b2, b3] + LittleEndian(n, k)
  {
    hide LittleEndian;
    var n3 := b3 + 0x100 * n;
    var n2 := b2 + 0x100 * n3;
    var n1 := b1 + 0x100 * n2;
    OneByte(b3, n, k);
    OneByte(b2, n3, 1 + k);
    OneByte(b1, n2, 2 + k);
    OneByte(b0, n1, 3 + k);
    assert b0 + 0x100 * (b1 + 0x100 * (b2 + 0x100 * b3)) + WORD * n == b0 + 0x100 * n1;
    var t := LittleEndian(n, k);
    assert [b0] + ([b1] + ([b2] + ([b3] + t))) == [b0, b1, b2, b3] + t;
  }

  lemma LengthBytes(lo: Word, hi: Word)
    ensures LittleEndian(lo + WORD * hi, 8) == Le32(lo) + Le32(hi)
  {
    FourBytes(lo, hi, 4);
    FourBytes(hi, 0, 0);
  }

  /** Sections 3.1 and 3.2 byte for byte: the message, a one bit, the fewest zeros that leave
      eight bytes to a full block, and the two words of the bit length, the low one first. */
  lemma PaddedExactly(m: Payload)
    ensures var p, bits := Padded(m), 8 * |m| % (WORD * WORD);
      && |p| % BLOCK == 0 && |m| + 9 <= |p| < |m| + 9 + BLOCK
      && p[..|m|] == m && p[|m|] == 0x80 && (forall i :: |m| < i < |p| - 8 ==> p[i] == 0)
      && p[|p| - 8..] == Le32(bits % WORD) + Le32(bits / WORD)
  {
    hide LittleEndian, Le32;
    PaddedIsWhole(m);
    LengthBytes(8 * |m| % (WORD * WORD) % WORD, 8 * |m| % (WORD * WORD) / WORD);
  }

  /** Section 3.3: the bytes the chaining value starts from, which are the digest of every
      message if blocks leave it as it is. */
  lemma DigestOfStart(f: BlockStep, m: Payload)
    requires forall s, b :: f(s, b) == s
    ensures Digest(f, m) ==
      [0x01, 0x23, 0x45, 0x67, 0x89, 0xab, 0xcd, 0xef, 0xfe, 0xdc, 0xba, 0x98, 0x76, 0x54, 0x32, 0x10]
  {
    NoChange(f, InitAbcd(), Padded(m));
    StartBytes();
    hide Blocks, Padded, InitAbcd, Le32;
  }

  lemma StartBytes()
    ensures var s := InitAbcd();
      && Le32(s.a) == [0x01, 0x23, 0x45, 0x67] && Le32(s.b) == [0x89, 0xab, 0xcd, 0xef]
      && Le32(s.c) == [0xfe, 0xdc, 0xba, 0x98] && Le32(s.d) == [0x76, 0x54, 0x32, 0x10]
  {
  }

  lemma {:induction false} NoChange(f: BlockStep, s: Abcd, m: Payload)
    requires forall s, b :: f(s, b) == s
    ensures Blocks(f, s, m) == s
    decreases |m|
  {
    if |m| >= BLOCK {
      NoChange(f, s, m[BLOCK..]);
    }
  }

  // ---------------------------------------------------------------- the bit count

  /** Two words count the bits of `n` bytes, modulo 2 to the 64. */
  predicate Counts(lo: Word, hi: Word, n: nat) {
    8 * n % (WORD * WORD) == lo + WORD * hi
  }

  lemma CountOffset(lo: Word, hi: Word, n: nat)
    requires Counts(lo, hi, n)
    ensures lo / 8 % BLOCK == n % BLOCK
  {
    var q := CountTurns(lo, hi, n);
    hide Counts;
    var x := q * WORD + hi;
    assert lo == 8 * (n - 0x2000_0000 * x);
    BlocksOff(n, 0x80_0000 * x);
  }

  /** How often the two words have wrapped. */
  lemma CountTurns(lo: Word, hi: Word, n: nat) returns (q: nat)
    requires Counts(lo, hi, n)
    ensures 8 * n == q * (WORD * WORD) + lo + WORD * hi
  {
    q := 8 * n / (WORD * WORD);
  }

  lemma BlocksOff(n: int, y: int)
    ensures (n - BLOCK * y) % BLOCK == n % BLOCK
  {
  }

  function CountLo(lo: Word, k: nat): Word {
    (lo + 8 * k % WORD) % WORD
  }

  /** The carry: the low word wrapped if it ended below what was added. */
  function CountHi(lo: Word, hi: Word, k: nat): Word {
    var added := (hi + k / 0x2000_0000) % WORD;
    if CountLo(lo, k) < 8 * k % WORD then (added + 1) % WORD else added
  }

  lemma CountGrows(lo: Word, hi: Word, n: nat, k: nat)
    requires Counts(lo, hi, n)
    ensures Counts(CountLo(lo, k), CountHi(lo, hi, k), n + k)
  {
    var bits, words := 8 * k % WORD, k / 0x2000_0000;
    var carry := if lo + bits >= WORD then 1 else 0;
    LowWord(lo, bits, k, carry);
    var high := hi + words + carry;
    HighWord(lo, hi, k, carry);
    var q := CountTurns(lo, hi, n);
    var top := high / WORD;
    var lo', hi' := CountLo(lo, k), CountHi(lo, hi, k);
    assert high == WORD * top + hi';
    assert 8 * k == WORD * words + bits;
    hide Counts, CountLo, CountHi;
    assert 8 * (n + k) == (q + top) * (WORD * WORD) + (lo' + WORD * hi');
    LowBits(q + top, lo' + WORD * hi');
    CountsIs(lo', hi', n + k);
  }

  lemma CountsIs(lo: Word, hi: Word, n: nat)
    requires 8 * n % (WORD * WORD) == lo + WORD * hi
    ensures Counts(lo, hi, n)
  {
  }

  lemma LowWord(lo: Word, bits: Word, k: nat, carry: int)
    requires bits == 8 * k % WORD && carry == if lo + bits >= WORD then 1 else 0
    ensures CountLo(lo, k) == lo + bits - WORD * carry
    ensures carry == 1 <==> CountLo(lo, k) < bits
  {
  }

  lemma HighWord(lo: Word, hi: Word, k: nat, carry: int)
    requires carry == if CountLo(lo, k) < 8 * k % WORD then 1 else 0
    ensures CountHi(lo, hi, k) == (hi + k / 0x2000_0000 + carry) % WORD
  {
  }

  lemma LowBits(q: nat, r: nat)
    requires r < WORD * WORD
    ensures (q * (WORD * WORD) + r) % (WORD * WORD) == r
  {
  }

  // ---------------------------------------------------------------- the state

  class State {
    const step: BlockStep
    var count0: Word
    var count1: Word
    var abcd: Abcd
    const buf: array<Byte>
    ghost var msg: Payload

    ghost predicate Valid()
      reads this, buf
    {
      && buf.Length == BLOCK
      && Counts(count0, count1, |msg|)
      && abcd == Blocks(step, InitAbcd(), msg)
      && buf[..|Rest(msg)|] == Rest(msg)
    }

    /** md5_init */
    constructor (step: BlockStep)
      ensures Valid() && msg == [] && this.step == step && fresh(buf)
    {
      this.step := step;
      count0, count1, abcd, msg := 0, 0, InitAbcd(), [];
      buf := new Byte[BLOCK](_ => 0);
    }

    method CopyIn(offset: nat, data: Payload)
      requires offset + |data| <= buf.Length
      modifies buf
      ensures buf[..offset + |data|] == old(buf[..offset]) + data
    {
      forall i | 0 <= i < |data| {
        buf[offset + i] := data[i];
      }
    }

    /** The partial block left from before: completed and processed if `data` reaches that far. */
    method Complete(offset: nat, data: Payload) returns (p: nat)
      requires buf.Length == BLOCK && 0 < offset < BLOCK && |data| > 0
      modifies buf, `abcd
      ensures p <= |data| && offset + p <= BLOCK
      ensures var all := old(buf[..offset]) + data;
        if offset + p < BLOCK
        then abcd == old(abcd) && p == |data| && buf[..offset + p] == all
        else abcd == step(old(abcd), all[..BLOCK]) && all[BLOCK..] == data[p..]
    {
      p := if offset + |data| > BLOCK then BLOCK - offset else |data|;
      ghost var part := buf[..offset];
      CopyIn(offset, data[..p]);
      if offset + p < BLOCK {
        assert data[..p] == data;
        return;
      }
      assert buf[..BLOCK] == part + data[..p] == (part + data)[..BLOCK];
      assert (part + data)[BLOCK..] == data[p..];
      abcd := step(abcd, buf[..BLOCK]);
    }

    /** Full blocks straight from the data, then the start of one kept for later. */
    method Process(data: Payload, start: nat)
      requires buf.Length == BLOCK && start <= |data|
      modifies buf, `abcd
      ensures abcd == Blocks(step, old(abcd), data[start..])
      ensures buf[..|Rest(data[start..])|] == Rest(data[start..])
    {
      hide Blocks, Rest;
      var p := start;
      while |data| - p >= BLOCK
        invariant start <= p <= |data|
        invariant Blocks(step, abcd, data[p..]) == Blocks(step, old(abcd), data[start..])
        invariant Rest(data[p..]) == Rest(data[start..])
      {
        FirstBlock(step, abcd, data[p..]);
        assert data[p..][..BLOCK] == data[p..p + BLOCK] && data[p..][BLOCK..] == data[p + BLOCK..];
        abcd := step(abcd, data[p..p + BLOCK]);
        p := p + BLOCK;
      }
      ShortBlocks(step, abcd, data[p..]);
      if p < |data| {
        CopyIn(0, data[p..]);
      }
    }

    /** md5_append */
    method Append(data: Payload)
      requires Valid()
      modifies `count0, `count1, `abcd, `msg, buf
      ensures Valid() && msg == old(msg) + data
    {
      hide Counts, Blocks, Rest;
      var offset := count0 / 8 % BLOCK;
      CountOffset(count0, count1, |msg|);
      ghost var part := Rest(msg);
      if |data| == 0 {
        assert msg + data == msg;
        return;
      }
      CountGrows(count0, count1, |msg|, |data|);
      BlocksResume(step, InitAbcd(), msg, data);
      count0, count1 := CountLo(count0, |data|), CountHi(count0, count1, |data|);
      msg := msg + data;
      if offset == 0 {
        assert part + data == data == data[0..];
        Process(data, 0);
      } else {
        var before := abcd;
        var p := Complete(offset, data);
        if offset + p < BLOCK {
          ShortBlocks(step, abcd, part + data);
          return;
        }
        FirstBlock(step, before, part + data);
        Process(data, p);
      }
    }

    /** md5_finish */
    method Finish() returns (digest: Payload)
      requires Valid()
      modifies `count0, `count1, `abcd, `msg, buf
      ensures digest == Digest(step, old(msg))
    {
      hide Counts, Blocks, Rest, Le32, Zeros;
      ghost var m := msg;
      var data := Le32(count0) + Le32(count1);
      LengthBytes(count0, count1);
      CountIsLength(count0, count1, |m|);
      var n := (55 - count0 / 8) % BLOCK + 1;
      PadCount(count0, count1, |msg|);
      Append([0x80] + seq(n - 1, _ => 0));
      Append(data);
      assert msg == m + [0x80] + seq(Zeros(|m|), _ => 0) + data;
      digest := Le32(abcd.a) + Le32(abcd.b) + Le32(abcd.c) + Le32(abcd.d);
    }
  }

  lemma CountIsLength(lo: Word, hi: Word, n: nat)
    requires Counts(lo, hi, n)
    ensures lo + WORD * hi == 8 * n % (WORD * WORD)
  {
  }

  lemma PadCount(lo: Word, hi: Word, n: nat)
    requires Counts(lo, hi, n)
    ensures (55 - lo / 8) % BLOCK == Zeros(n)
  {
    CountOffset(lo, hi, n);
    hide Counts;
    SameRest(lo / 8, n);
  }

  lemma SameRest(a: int, b: int)
    requires a % BLOCK == b % BLOCK
    ensures (55 - a) % BLOCK == (55 - b) % BLOCK
  {
    BlocksOff(55 - a % BLOCK, a / BLOCK);
    BlocksOff(55 - b % BLOCK, b / BLOCK);
  }

  lemma ShortBlocks(f: BlockStep, s: Abcd, m: Payload)
    requires |m| < BLOCK
    ensures Blocks(f, s, m) == s && Rest(m) == m
  {
  }

  lemma FirstBlock(f: BlockStep, s: Abcd, m: Payload)
    requires |m| >= BLOCK
    ensures Blocks(f, s, m) == Blocks(f, f(s, m[..BLOCK]), m[BLOCK..]) && Rest(m) == Rest(m[BLOCK..])
  {
  }

  /** The digest of a message appended in pieces is the digest of the message. */
  method Compute(step: BlockStep, parts: seq<Payload>) returns (digest: Payload)
    ensures digest == Digest(step, Flat(parts))
  {
    hide Digest;
    var state := new State(step);
    var i := 0;
    while i < |parts|
      invariant 0 <= i <= |parts| && state.Valid() && state.step == step && fresh(state) && fresh(state.buf)
      invariant state.msg == Flat(parts[..i])
    {
      FlatConcat(parts[..i], [parts[i]]);
      assert parts[..i + 1] == parts[..i] + [parts[i]];
      state.Append(parts[i]);
      i := i + 1;
    }
    assert parts[..i] == parts;
    digest := state.Finish();
  }
}
