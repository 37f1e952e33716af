/** The integer codec: a 32-bit value travels as its four bytes, least
    significant first, each through the bit codec. Values are unbounded
    integers; the 32-bit width of the C int and uint is written out as
    arithmetic modulo 2^32. */
module IntCodec {
  import opened BitCodec

  /** 2^32: the C int and uint values are 32 bits wide. */
  const WORD: int := 0x1_0000_0000

  /** The largest C int plus one. */
  const INT_LIMIT: int := 0x8000_0000

  /** 2^(8k): the weight of byte k. */
  function Scale(k: nat): (s: nat)
    requires k < 4
    ensures s > 0
  {
    if k == 0 then 1 else if k == 1 then 0x100 else if k == 2 then 0x1_0000 else 0x100_0000
  }

  /** Byte k of v, counting from the least significant: (v >> 8k) & 0xFF.
      Dafny's / rounds toward minus infinity for a positive divisor, as the
      arithmetic right shift of a negative int does. */
  function ByteOf(v: int, k: nat): byte
    requires k < 4
  {
    (v / Scale(k)) % 0x100
  }

  /** The four bytes of v in the order the encoder writes them. */
  function LittleEndian(v: int): (r: seq<byte>)
    ensures |r| == 4
  {
    [ByteOf(v, 0), ByteOf(v, 1), ByteOf(v, 2), ByteOf(v, 3)]
  }

  /** 2^(8k): the number of values k bytes can hold. */
  function Span(k: nat): (s: nat)
    requires k <= 4
    ensures s > 0
  {
    if k == 4 then WORD else Scale(k)
  }

  /** The unsigned value assembled from up to four bytes, least significant
      first, as the decoder's loop builds it: byte i is shifted left by 8i and
      or-ed in (the bytes occupy disjoint bits, so or-ing is adding). */
  function Assemble(bs: seq<byte>): (r: nat)
    requires |bs| <= 4
    ensures r < Span(|bs|)
  {
    if bs == [] then 0 else Assemble(bs[..|bs| - 1]) + (bs[|bs| - 1] as int) * Scale(|bs| - 1)
  }

  /** Assemble written out for four bytes. */
  lemma AssembleFour(bs: seq<byte>)
    requires |bs| == 4
    ensures Assemble(bs) == bs[0] as int + 0x100 * (bs[1] as int)
                          + 0x1_0000 * (bs[2] as int) + 0x100_0000 * (bs[3] as int)
  {
    var p1, p2, p3 := bs[..1], bs[..2], bs[..3];
    assert p1[..0] == [] && p2[..1] == p1 && p3[..2] == p2 && bs[..3] == p3;
    assert p1[0] == bs[0] && p2[1] == bs[1] && p3[2] == bs[2];
    assert Assemble(p1) == bs[0];
    assert Assemble(p2) == Assemble(p1) + 0x100 * (bs[1] as int);
    assert Assemble(p3) == Assemble(p2) + 0x1_0000 * (bs[2] as int);
  }

  /** A number's low 32 bits are the sum of its four base-256 digits. */
  lemma Digits(n: nat)
    ensures n % WORD == n % 0x100 + 0x100 * ((n / 0x100) % 0x100)
                        + 0x1_0000 * ((n / 0x1_0000) % 0x100) + 0x100_0000 * ((n / 0x100_0000) % 0x100)
  {
    LowDigits16(n);
    LowDigits24(n);
    LowDigits32(n);
  }

  /** The low 16 bits from the low two digits. */
  lemma LowDigits16(n: nat)
    ensures n % 0x1_0000 == n % 0x100 + 0x100 * ((n / 0x100) % 0x100)
  {
    var r, q := n % 0x100, n / 0x100;
    var lo, hi := q % 0x100, q / 0x100;
    assert n == r + 0x100 * lo + 0x1_0000 * hi;
    assert 0 <= r + 0x100 * lo < 0x1_0000;
  }

  /** The low 24 bits from the low 16 bits and the third digit. */
  lemma LowDigits24(n: nat)
    ensures n % 0x100_0000 == n % 0x1_0000 + 0x1_0000 * ((n / 0x1_0000) % 0x100)
  {
    var r, q := n % 0x1_0000, n / 0x1_0000;
    var lo, hi := q % 0x100, q / 0x100;
    assert n == r + 0x1_0000 * lo + 0x100_0000 * hi;
    assert 0 <= r + 0x1_0000 * lo < 0x100_0000;
  }

  /** The low 32 bits from the low 24 bits and the fourth digit. */
  lemma LowDigits32(n: nat)
    ensures n % WORD == n % 0x100_0000 + 0x100_0000 * ((n / 0x100_0000) % 0x100)
  {
    var r, q := n % 0x100_0000, n / 0x100_0000;
    var lo, hi := q % 0x100, q / 0x100;
    assert n == r + 0x100_0000 * lo + WORD * hi;
    assert 0 <= r + 0x100_0000 * lo < WORD;
  }

  /** Integer round trip: assembling the little-endian bytes of v gives back
      its low 32 bits. */
  lemma AssembleLittleEndian(v: nat)
    ensures Assemble(LittleEndian(v)) == v % WORD
  {
    AssembleFour(LittleEndian(v));
    Digits(v);
  }

  /** The base-256 digits of a + 256b + 65536c + 16777216d are a, b, c, d. */
  lemma DigitsOf(a: int, b: int, c: int, d: int)
    requires 0 <= a < 0x100 && 0 <= b < 0x100 && 0 <= c < 0x100 && 0 <= d < 0x100
    ensures var n := a + 0x100 * b + 0x1_0000 * c + 0x100_0000 * d;
      n % 0x100 == a && (n / 0x100) % 0x100 == b
      && (n / 0x1_0000) % 0x100 == c && (n / 0x100_0000) % 0x100 == d
  {
    var n := a + 0x100 * b + 0x1_0000 * c + 0x100_0000 * d;
    assert n / 0x100 == b + 0x100 * c + 0x1_0000 * d;
    assert n / 0x1_0000 == c + 0x100 * d;
    assert n / 0x100_0000 == d;
  }

  /** The other direction: the little-endian bytes of an assembled value are
      the bytes it was assembled from. */
  lemma LittleEndianAssemble(bs: seq<byte>)
    requires |bs| == 4
    ensures Assemble(bs) < WORD
    ensures LittleEndian(Assemble(bs)) == bs
  {
    AssembleFour(bs);
    DigitsOf(bs[0], bs[1], bs[2], bs[3]);
  }

  /** A multiple of 2^32 does not show in the four bytes: the int and the uint
      with the same bit pattern are written alike. */
  lemma LittleEndianWrap(u: nat)
    requires u < WORD
    ensures LittleEndian(u - WORD) == LittleEndian(u)
  {
    var v := u - WORD;
    assert ByteOf(v, 0) == ByteOf(u, 0);
    assert ByteOf(v, 1) == ByteOf(u, 1) by {
      assert v / 0x100 == u / 0x100 - 0x100_0000;
    }
    assert ByteOf(v, 2) == ByteOf(u, 2) by {
      assert v / 0x1_0000 == u / 0x1_0000 - 0x1_0000;
    }
    assert ByteOf(v, 3) == ByteOf(u, 3) by {
      assert v / 0x100_0000 == u / 0x100_0000 - 0x100;
    }
  }

  /** The value of a 32-bit pattern u read as a two's-complement C int. */
  function ToInt32(u: nat): (r: int)
    requires u < WORD
    ensures -INT_LIMIT <= r < INT_LIMIT
    ensures r % WORD == u
    ensures r >= 0 <==> u < INT_LIMIT
  {
    if u < INT_LIMIT then u else u - WORD
  }

  /** Casting to int keeps the bit pattern: the bytes written for (int)u are
      the bytes of u. */
  lemma LittleEndianToInt32(u: nat)
    requires u < WORD
    ensures LittleEndian(ToInt32(u)) == LittleEndian(u)
  {
    if u >= INT_LIMIT {
      LittleEndianWrap(u);
    }
  }

  // ---------------------------------------------------------------------
  // Integers in 32 carrier bytes
  // ---------------------------------------------------------------------

  /** Integer round trip through the carrier: decoding the four windows and
      reassembling them little-endian gives back the low 32 bits of v. */
  lemma DecodeEmbedInt(v: nat, c: seq<byte>)
    requires |c| == 32
    ensures Assemble(DecodeBytes(EmbedBytes(LittleEndian(v), c))) == v % WORD
  {
    DecodeEmbedBytes(LittleEndian(v), c);
    AssembleLittleEndian(v);
  }
}
