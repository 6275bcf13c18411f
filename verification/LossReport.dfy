/** The loss report: the word array in which the receiver names lost ranges to the sender.
    A single lost number is one word; a range is two words, the first of them with its top
    bit set.  Words are taken as unsigned 32-bit numbers. */
module LossReport {
  import opened SeqNo
  import opened LossNodes

  const RANGE_FLAG: int := 0x8000_0000

  function EncodeRange(r: Range): seq<int> {
    if r.lo == r.hi then [Wrap(r.lo)] else [Wrap(r.lo) + RANGE_FLAG, Wrap(r.hi)]
  }

  function Encode(ns: seq<Range>): seq<int> {
    if |ns| == 0 then [] else Encode(ns[..|ns| - 1]) + EncodeRange(ns[|ns| - 1])
  }

  lemma EncodeNext(ns: seq<Range>, m: int)
    requires 0 <= m < |ns|
    ensures Encode(ns[..m + 1]) == Encode(ns[..m]) + EncodeRange(ns[m])
  {
    assert ns[..m + 1][..m] == ns[..m];
  }

  lemma {:induction false} EncodeConcat(a: seq<Range>, b: seq<Range>)
    ensures Encode(a + b) == Encode(a) + Encode(b)
  {
    hide EncodeRange;
    if |b| == 0 {
      assert a + b == a;
    } else {
      EncodeConcat(a, b[..|b| - 1]);
      assert (a + b)[..|a + b| - 1] == a + b[..|b| - 1];
    }
  }

  lemma EncodeFirst(ns: seq<Range>)
    requires |ns| > 0
    ensures Encode(ns) == EncodeRange(ns[0]) + Encode(ns[1..])
  {
    hide Encode, EncodeRange;
    assert [ns[0]] + ns[1..] == ns;
    EncodeConcat([ns[0]], ns[1..]);
    EncodeOne(ns[0]);
  }

  lemma EncodeOne(r: Range)
    ensures Encode([r]) == EncodeRange(r)
  {
    hide EncodeRange;
    assert [r][..0] == [];
  }

  /** Where an entry stands: a single number takes one word, a range two, the first flagged. */
  lemma EntryAt(ns: seq<Range>, m: int)
    requires 0 <= m < |ns|
    ensures var r, i, words := ns[m], |Encode(ns[..m])|, Encode(ns);
      && |Encode(ns[..m + 1])| == i + (if r.lo == r.hi then 1 else 2) <= |words|
      && words[i] == Wrap(r.lo) + (if r.lo == r.hi then 0 else 0x8000_0000)
      && (r.lo != r.hi ==> words[i + 1] == Wrap(r.hi))
  {
    EncodeNext(ns, m);
    EncodeConcat(ns[..m + 1], ns[m + 1..]);
    assert ns[..m + 1] + ns[m + 1..] == ns;
    hide Encode;
  }

  /** Words that end with a complete entry. */
  predicate WellFormed(words: seq<int>)
    decreases |words|
  {
    |words| == 0 ||
    (if 0 <= words[0] < RANGE_FLAG then WellFormed(words[1..])
     else |words| > 1 && RANGE_FLAG <= words[0] < 2 * RANGE_FLAG && 0 <= words[1] < RANGE_FLAG
           && WellFormed(words[2..]))
  }

  /** The pairs of sequence numbers that the words name. */
  function Decode(words: seq<int>): seq<(int, int)>
    requires WellFormed(words)
    decreases |words|
  {
    if |words| == 0 then []
    else if words[0] < RANGE_FLAG then [(words[0], words[0])] + Decode(words[1..])
    else [(words[0] - RANGE_FLAG, words[1])] + Decode(words[2..])
  }

  /** The words name the wrapped ends of the ranges, one by one. */
  predicate Names(words: seq<int>, ns: seq<Range>) {
    && WellFormed(words) && |Decode(words)| == |ns|
    && forall k :: 0 <= k < |ns| ==> Decode(words)[k] == (Wrap(ns[k].lo), Wrap(ns[k].hi))
  }

  /** Decoding a report gives back the sequence numbers of its ranges, in order. */
  lemma {:induction false} DecodeEncode(ns: seq<Range>)
    ensures Names(Encode(ns), ns)
    decreases |ns|
  {
    if |ns| > 0 {
      EncodeFirst(ns);
      DecodeEncode(ns[1..]);
      var words, rest := Encode(ns), Encode(ns[1..]);
      if ns[0].lo == ns[0].hi {
        assert words[1..] == rest;
      } else {
        assert words[2..] == rest;
      }
    }
  }

  /** The first entry of some words, and the rest. */
  lemma FirstEntry(words: seq<int>, i: int, ns: seq<Range>)
    requires 0 <= i < |words| && Names(words[i..], ns)
    ensures |ns| > 0 && words[i] >= 0
    ensures words[i] < RANGE_FLAG ==>
      words[i] == Wrap(ns[0].lo) == Wrap(ns[0].hi) && Names(words[i + 1..], ns[1..])
    ensures words[i] >= RANGE_FLAG ==>
      i + 1 < |words| && words[i] == Wrap(ns[0].lo) + RANGE_FLAG && words[i + 1] == Wrap(ns[0].hi) &&
      Names(words[i + 2..], ns[1..])
  {
    var ws := words[i..];
    assert ws[0] == words[i] && Decode(ws)[0] == (Wrap(ns[0].lo), Wrap(ns[0].hi));
    var n := if words[i] < RANGE_FLAG then 1 else 2;
    assert ws[n..] == words[i + n..];
    assert Decode(ws)[1..] == Decode(words[i + n..]);
    forall k | 0 <= k < |ns| - 1 ensures Decode(words[i + n..])[k] == (Wrap(ns[1..][k].lo), Wrap(ns[1..][k].hi)) {
      assert Decode(ws)[1..][k] == Decode(ws)[k + 1] && ns[1..][k] == ns[k + 1];
    }
  }
}
