/** Integers on the wire: net_put32/net_get32, the 64-bit byte swaps of proto.c, and two's complement. */
module NetInt {
  import opened Octets

  const P24: nat := 0x100_0000
  const P32: nat := 0x1_0000_0000
  const P64: nat := 0x1_0000_0000_0000_0000

  // ---------- integers ----------

  /** q, followed by one more byte. */
  function Push(q: nat, b: Byte): nat { q * 256 + b }

  lemma PushParts(q: nat, b: Byte)
    ensures Push(q, b) / 256 == q && Push(q, b) % 256 == b
  {}

  lemma PartsPush(n: nat)
    ensures Push(n / 256, n % 256) == n
  {}

  function Byte0(n: nat): Byte { n % 256 }
  function Byte1(n: nat): Byte { n / 256 % 256 }
  function Byte2(n: nat): Byte { n / 256 / 256 % 256 }
  function Byte3(n: nat): Byte { n / 256 / 256 / 256 % 256 }

  /** The 32-bit value with these bytes, most significant first. */
  function Join(b3: Byte, b2: Byte, b1: Byte, b0: Byte): (n: nat)
    ensures n < P32
  {
    Push(Push(Push(b3, b2), b1), b0)
  }

  lemma JoinParts(b3: Byte, b2: Byte, b1: Byte, b0: Byte)
    ensures var n := Join(b3, b2, b1, b0); Byte3(n) == b3 && Byte2(n) == b2 && Byte1(n) == b1 && Byte0(n) == b0
  {
    PushParts(Push(Push(b3, b2), b1), b0);
    PushParts(Push(b3, b2), b1);
    PushParts(b3, b2);
  }

  lemma PartsJoin(n: nat)
    requires n < P32
    ensures Join(Byte3(n), Byte2(n), Byte1(n), Byte0(n)) == n
  {
    PartsPush(n);
    PartsPush(n / 256);
    PartsPush(n / 256 / 256);
  }

  /** A 32-bit value in network order (net_put32). */
  function Put32(n: nat): (b: Bytes)
    ensures |b| == 4
  {
    [Byte3(n), Byte2(n), Byte1(n), Byte0(n)]
  }

  function Get32(b: Bytes): (n: nat)
    requires |b| == 4
    ensures n < P32
  {
    Join(b[0], b[1], b[2], b[3])
  }

  lemma GetPut32(n: nat)
    requires n < P32
    ensures Get32(Put32(n)) == n
  {
    PartsJoin(n);
  }

  lemma PutGet32(b: Bytes)
    requires |b| == 4
    ensures Put32(Get32(b)) == b
  {
    JoinParts(b[0], b[1], b[2], b[3]);
  }

  function High(n: nat): nat { n / P32 }
  function Low(n: nat): (r: nat) ensures r < P32 { n % P32 }
  function Join64(hi: nat, lo: nat): nat { hi * P32 + lo }

  lemma JoinHalves(n: nat)
    requires n < P64
    ensures Join64(High(n), Low(n)) == n && High(n) < P32
  {}

  lemma HalvesJoin(hi: nat, lo: nat)
    requires hi < P32 && lo < P32
    ensures High(Join64(hi, lo)) == hi && Low(Join64(hi, lo)) == lo && Join64(hi, lo) < P64
  {}

  function Put64(n: nat): (b: Bytes)
    ensures |b| == 8
  {
    Put32(High(n)) + Put32(Low(n))
  }

  function Get64(b: Bytes): nat
    requires |b| == 8
  {
    Join64(Get32(b[..4]), Get32(b[4..]))
  }

  lemma GetPut64(n: nat)
    requires n < P64
    ensures Get64(Put64(n)) == n
  {
    hide High, Low, Join64, Put32, Get32;
    JoinHalves(n);
    GetPut32(High(n));
    GetPut32(Low(n));
    assert Put64(n)[..4] == Put32(High(n)) && Put64(n)[4..] == Put32(Low(n));
  }

  lemma PutGet64(b: Bytes)
    requires |b| == 8
    ensures Get64(b) < P64 && Put64(Get64(b)) == b
  {
    hide High, Low, Join64, Put32, Get32;
    PutGet32(b[..4]);
    PutGet32(b[4..]);
    HalvesJoin(Get32(b[..4]), Get32(b[4..]));
    assert b == b[..4] + b[4..];
  }

  /** Two's complement: the int32_t / int64_t with modulus `m` as the unsigned value that is stored. */
  function Unsigned(v: int, m: nat): int { if v < 0 then v + m else v }

  function Signed(u: nat, m: nat): int { if 2 * u >= m then u - m else u }

  lemma SignedUnsigned(v: int, m: nat)
    requires 0 <= 2 * v + m && 2 * v < m
    ensures 0 <= Unsigned(v, m) < m && Signed(Unsigned(v, m), m) == v
  {}

  // ---------- the byte swaps of a little-endian host ----------

  function StoreLE32(n: nat): Bytes { [Byte0(n), Byte1(n), Byte2(n), Byte3(n)] }

  /** htonl() and ntohl(). */
  function Swap32(n: nat): (r: nat)
    ensures r < P32
  {
    Join(Byte0(n), Byte1(n), Byte2(n), Byte3(n))
  }

  function StoreLE64(n: nat): Bytes { StoreLE32(Low(n)) + StoreLE32(High(n)) }

  /** _htonll() and _ntohll(): swap the halves and the bytes of each. */
  function Swap64(n: nat): nat { Join64(Swap32(Low(n)), Swap32(High(n))) }

  lemma Swap32Stores(n: nat)
    ensures StoreLE32(Swap32(n)) == Put32(n)
  {
    JoinParts(Byte0(n), Byte1(n), Byte2(n), Byte3(n));
  }

  /** The host value that _htonll() returns is stored as the big-endian bytes of n. */
  lemma Swap64Stores(n: nat)
    ensures StoreLE64(Swap64(n)) == Put64(n)
  {
    hide High, Low, Join64, Put32, StoreLE32, Swap32;
    HalvesJoin(Swap32(Low(n)), Swap32(High(n)));
    Swap32Stores(Low(n));
    Swap32Stores(High(n));
  }

  lemma Swap32Twice(n: nat)
    requires n < P32
    ensures Swap32(Swap32(n)) == n
  {
    JoinParts(Byte0(n), Byte1(n), Byte2(n), Byte3(n));
    PartsJoin(n);
  }

  /** _ntohll() undoes _htonll(). */
  lemma Swap64Twice(n: nat)
    requires n < P64
    ensures Swap64(n) < P64 && Swap64(Swap64(n)) == n
  {
    hide High, Low, Join64, Swap32;
    JoinHalves(n);
    HalvesJoin(Swap32(Low(n)), Swap32(High(n)));
    Swap32Twice(High(n));
    Swap32Twice(Low(n));
  }
}
