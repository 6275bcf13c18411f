/** Bytes, packet payloads, and the byte stream they make up. */
module Bytes {
  type Byte = b: int | 0 <= b < 256
  type Payload = seq<Byte>

  datatype Option<+T> = None | Some(value: T)

  function Flat(ps: seq<Payload>): seq<Byte> {
    if |ps| == 0 then [] else ps[0] + Flat(ps[1..])
  }

  lemma {:induction false} FlatConcat(a: seq<Payload>, b: seq<Payload>)
    ensures Flat(a + b) == Flat(a) + Flat(b)
  {
    if |a| == 0 {
      assert a + b == b;
    } else {
      FlatConcat(a[1..], b);
      assert (a + b)[0] == a[0] && (a + b)[1..] == a[1..] + b;
      assert a[0] + (Flat(a[1..]) + Flat(b)) == (a[0] + Flat(a[1..])) + Flat(b);
    }
  }

  /** A prefix of the payloads is a prefix of the bytes. */
  lemma FlatPrefix(ps: seq<Payload>, n: int)
    requires 0 <= n <= |ps|
    ensures Flat(ps[..n]) <= Flat(ps)
  {
    FlatConcat(ps[..n], ps[n..]);
    assert ps[..n] + ps[n..] == ps;
  }
}
