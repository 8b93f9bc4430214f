/** Byte order. The library runs on a little-endian host (its `S_un.S_addr`
    field exists only in the Windows socket headers), so a host integer is
    laid out least significant byte first, and htonl/ntohl, htons/ntohs
    reverse the bytes of a value. Network order is most significant first. */
module ByteOrder {
  import opened Numeric

  type Bytes2 = s: seq<Byte> | |s| == 2 witness [0, 0]
  type Bytes4 = s: seq<Byte> | |s| == 4 witness [0, 0, 0, 0]

  /** Network (big-endian) byte order. */
  function BigEndian16(x: U16): Bytes2
  {
    [x / 0x100, x % 0x100]
  }

  function FromBigEndian16(b: Bytes2): U16
  {
    b[0] as int * 0x100 + b[1]
  }

  function BigEndian32(x: U32): Bytes4
  {
    [x / 0x100_0000, (x / 0x1_0000) % 0x100, (x / 0x100) % 0x100, x % 0x100]
  }

  function FromBigEndian32(b: Bytes4): U32
  {
    b[0] as int * 0x100_0000 + b[1] as int * 0x1_0000 + b[2] as int * 0x100 + b[3]
  }

  /** How the little-endian host stores a uint16_t / uint32_t in memory. */
  function StoreHost16(x: U16): Bytes2
  {
    var b := BigEndian16(x); [b[1], b[0]]
  }

  function LoadHost16(b: Bytes2): U16
  {
    FromBigEndian16([b[1], b[0]])
  }

  function StoreHost32(x: U32): Bytes4
  {
    var b := BigEndian32(x); [b[3], b[2], b[1], b[0]]
  }

  function LoadHost32(b: Bytes4): U32
  {
    FromBigEndian32([b[3], b[2], b[1], b[0]])
  }

  /** htons/ntohs and htonl/ntohl on the little-endian host: the value whose
      host layout is the network layout of x. */
  function Htons(x: U16): U16
  {
    LoadHost16(BigEndian16(x))
  }

  function Ntohs(x: U16): U16
  {
    FromBigEndian16(StoreHost16(x))
  }

  function Htonl(x: U32): U32
  {
    LoadHost32(BigEndian32(x))
  }

  function Ntohl(x: U32): U32
  {
    FromBigEndian32(StoreHost32(x))
  }

  lemma BigEndian16RoundTrip(x: U16, b: Bytes2)
    ensures FromBigEndian16(BigEndian16(x)) == x
    ensures BigEndian16(FromBigEndian16(b)) == b
  {
  }

  lemma BigEndian32RoundTrip(x: U32, b: Bytes4)
    ensures FromBigEndian32(BigEndian32(x)) == x
    ensures BigEndian32(FromBigEndian32(b)) == b
  {
    DecodeEncode32(x);
    EncodeDecode32(b);
  }

  lemma DecodeEncode32(x: U32)
    ensures FromBigEndian32(BigEndian32(x)) == x
  {
    var q1, q2 := x / 0x100, x / 0x1_0000;
    assert q2 == q1 / 0x100;
    assert x / 0x100_0000 == q2 / 0x100;
    assert x == q1 * 0x100 + x % 0x100;
    assert q1 == q2 * 0x100 + q1 % 0x100;
    assert q2 == (q2 / 0x100) * 0x100 + q2 % 0x100;
  }

  lemma EncodeDecode32(b: Bytes4)
    ensures BigEndian32(FromBigEndian32(b)) == b
  {
    var x := FromBigEndian32(b);
    var q1 := b[0] as int * 0x1_0000 + b[1] as int * 0x100 + b[2];
    var q2 := b[0] as int * 0x100 + b[1];
    assert x == q1 * 0x100 + b[3];
    assert x / 0x100 == q1 && x % 0x100 == b[3];
    assert q1 == q2 * 0x100 + b[2];
    assert q1 / 0x100 == q2 && q1 % 0x100 == b[2];
    assert x / 0x1_0000 == q2;
    assert q2 / 0x100 == b[0] && q2 % 0x100 == b[1];
    assert x / 0x100_0000 == b[0];
  }

  lemma Host16RoundTrip(x: U16, b: Bytes2)
    ensures LoadHost16(StoreHost16(x)) == x
    ensures StoreHost16(LoadHost16(b)) == b
  {
    BigEndian16RoundTrip(x, [b[1], b[0]]);
  }

  lemma Host32RoundTrip(x: U32, b: Bytes4)
    ensures LoadHost32(StoreHost32(x)) == x
    ensures StoreHost32(LoadHost32(b)) == b
  {
    BigEndian32RoundTrip(x, [b[3], b[2], b[1], b[0]]);
  }

  /** Storing htonl(x) in a host integer puts x in network order in memory,
      and ntohl of a host integer read from network-order memory is the
      big-endian value of those bytes; likewise for the 16-bit pair. */
  lemma NetworkLayout(x: U32, b: Bytes4, y: U16, c: Bytes2)
    ensures StoreHost32(Htonl(x)) == BigEndian32(x)
    ensures Ntohl(LoadHost32(b)) == FromBigEndian32(b)
    ensures StoreHost16(Htons(y)) == BigEndian16(y)
    ensures Ntohs(LoadHost16(c)) == FromBigEndian16(c)
  {
    Host32RoundTrip(x, BigEndian32(x));
    Host32RoundTrip(x, b);
    Host16RoundTrip(y, BigEndian16(y));
    Host16RoundTrip(y, c);
  }

  /** ntohl undoes htonl and ntohs undoes htons, in both orders. */
  lemma SwapInvolutive(x: U32, y: U16)
    ensures Ntohl(Htonl(x)) == x && Htonl(Ntohl(x)) == x
    ensures Ntohs(Htons(y)) == y && Htons(Ntohs(y)) == y
  {
    NetworkLayout(x, StoreHost32(x), y, StoreHost16(y));
    BigEndian32RoundTrip(x, StoreHost32(x));
    BigEndian16RoundTrip(y, StoreHost16(y));
    Host32RoundTrip(x, BigEndian32(x));
    Host16RoundTrip(y, BigEndian16(y));
  }
}
