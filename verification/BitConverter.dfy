/** Host to network order on a little-endian host: the bytes of a value the other way round. */
module BitConverter {
  import opened Bytes
  import opened ByteBuffer

  function Flip16(v: bv16): (r: bv16)
    ensures r & 0xFF == v >> 8 && r >> 8 == v & 0xFF
  {
    ((v & 0x00FF) << 8) | ((v & 0xFF00) >> 8)
  }

  function Flip32(v: bv32): (r: bv32)
    ensures r & 0xFF == v >> 24 && (r >> 8) & 0xFF == (v >> 16) & 0xFF
    ensures (r >> 16) & 0xFF == (v >> 8) & 0xFF && r >> 24 == v & 0xFF
  {
    ((v & 0xFF000000) >> 24) | ((v & 0x00FF0000) >> 8) | ((v & 0x0000FF00) << 8) | ((v & 0x000000FF) << 24)
  }

  function Flip64(v: bv64): (r: bv64)
    ensures r & 0xFF == v >> 56 && (r >> 8) & 0xFF == (v >> 48) & 0xFF
    ensures (r >> 16) & 0xFF == (v >> 40) & 0xFF && (r >> 24) & 0xFF == (v >> 32) & 0xFF
    ensures (r >> 32) & 0xFF == (v >> 24) & 0xFF && (r >> 40) & 0xFF == (v >> 16) & 0xFF
    ensures (r >> 48) & 0xFF == (v >> 8) & 0xFF && r >> 56 == v & 0xFF
  {
    ((v & 0xFF00000000000000) >> 56) | ((v & 0x00FF000000000000) >> 40) |
    ((v & 0x0000FF0000000000) >> 24) | ((v & 0x000000FF00000000) >> 8) |
    ((v & 0x00000000FF000000) << 8) | ((v & 0x0000000000FF0000) << 24) |
    ((v & 0x000000000000FF00) << 40) | ((v & 0x00000000000000FF) << 56)
  }

  /** The other direction is the same conversion. */
  lemma FlipTwice(a: bv16, b: bv32, c: bv64)
    ensures Flip16(Flip16(a)) == a && Flip32(Flip32(b)) == b && Flip64(Flip64(c)) == c
  {
  }

  // ---------------------------------------------------------------- in memory

  /** A value as a little-endian host stores it, the lowest byte first. */
  function Stored64(v: bv64): Payload {
    [(v & 0xFF) as bv8 as int, ((v >> 8) & 0xFF) as bv8 as int, ((v >> 16) & 0xFF) as bv8 as int,
     ((v >> 24) & 0xFF) as bv8 as int, ((v >> 32) & 0xFF) as bv8 as int, ((v >> 40) & 0xFF) as bv8 as int,
     ((v >> 48) & 0xFF) as bv8 as int, ((v >> 56) & 0xFF) as bv8 as int]
  }

  /** The number that the stored bytes make. */
  function Number64(v: bv64): nat {
    var b := Stored64(v);
    FromBigEndian([b[7], b[6], b[5], b[4], b[3], b[2], b[1], b[0]])
  }

  /** A number flipped and stored is the number in network order, and the other way round. */
  lemma StoredFlipped64(v: bv64)
    ensures Stored64(Flip64(v)) == BigEndian(Number64(v), 8)
    ensures FromBigEndian(Stored64(v)) == Number64(Flip64(v))
  {
    var b := Stored64(v);
    hide FromBigEndian, BigEndian;
    BytesRoundTrip([b[7], b[6], b[5], b[4], b[3], b[2], b[1], b[0]]);
    FlippedBytes64(v);
  }

  lemma FlippedBytes64(v: bv64)
    ensures var b := Stored64(v); Stored64(Flip64(v)) == [b[7], b[6], b[5], b[4], b[3], b[2], b[1], b[0]]
  {
  }

  function Stored32(v: bv32): Payload {
    [(v & 0xFF) as bv8 as int, ((v >> 8) & 0xFF) as bv8 as int, ((v >> 16) & 0xFF) as bv8 as int,
     ((v >> 24) & 0xFF) as bv8 as int]
  }

  function Number32(v: bv32): nat {
    var b := Stored32(v);
    FromBigEndian([b[3], b[2], b[1], b[0]])
  }

  lemma StoredFlipped32(v: bv32)
    ensures Stored32(Flip32(v)) == BigEndian(Number32(v), 4)
    ensures FromBigEndian(Stored32(v)) == Number32(Flip32(v))
  {
    var b := Stored32(v);
    hide FromBigEndian, BigEndian;
    BytesRoundTrip([b[3], b[2], b[1], b[0]]);
    FlippedBytes32(v);
  }

  lemma FlippedBytes32(v: bv32)
    ensures var b := Stored32(v); Stored32(Flip32(v)) == [b[3], b[2], b[1], b[0]]
  {
  }
}
