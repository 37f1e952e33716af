/** The bit codec shared by the encoder and the decoder.

    A byte of hidden data is spread over eight carrier bytes, most significant
    bit first: carrier byte i keeps its upper seven bits and takes bit (7 - i)
    of the data byte as its least significant bit. Bytes are the integers
    0..255 and the C bit operations are written arithmetically: x >> k is
    x / 2^k, x & 1 is x % 2, (c & 0xFE) | b is c - c % 2 + b. */
module BitCodec {

  /** An unsigned char. */
  type byte = x: int | 0 <= x < 0x100

  /** 2^k for the shift distances a byte admits, one constant per case. */
  function Pow2(k: nat): (p: nat)
    requires k <= 8
    ensures p > 0
  {
    if k == 0 then 1 else if k == 1 then 2 else if k == 2 then 4 else if k == 3 then 8
    else if k == 4 then 16 else if k == 5 then 32 else if k == 6 then 64
    else if k == 7 then 128 else 256
  }

  /** Bit k of x, bit 0 being the least significant: (x >> k) & 1. */
  function Bit(x: byte, k: nat): (b: nat)
    requires k < 8
    ensures b <= 1
  {
    (x / Pow2(k)) % 2
  }

  /** The least significant bit of a carrier byte (c & 1): the one bit it carries. */
  function Lsb(c: byte): (b: nat)
    ensures b <= 1
  {
    c % 2
  }

  /** Carrier byte c after its least significant bit is replaced by b:
      (c & 0xFE) | b. */
  function WithLsb(c: byte, b: nat): (r: byte)
    requires b <= 1
    ensures Lsb(r) == b
    ensures r / 2 == c / 2
  {
    c - c % 2 + b
  }

  // ---------------------------------------------------------------------
  // One byte in eight carrier bytes
  // ---------------------------------------------------------------------

  /** The eight carrier bytes c after x has been written into them. */
  function EmbedByte(x: byte, c: seq<byte>): (r: seq<byte>)
    requires |c| == 8
    ensures |r| == 8
  {
    seq(8, i requires 0 <= i < 8 => WithLsb(c[i], Bit(x, 7 - i)))
  }

  /** The byte read back from carrier bytes w, as the decoder's loop builds it:
      the unsigned char result so far is shifted left once and the next
      carrier byte's least significant bit is or-ed in. */
  function Accumulate(w: seq<byte>): byte
  {
    if w == [] then 0 else (2 * Accumulate(w[..|w| - 1]) + Lsb(w[|w| - 1])) % 0x100
  }

  /** The byte carried by one window of eight carrier bytes: Accumulate, the
      decoder's loop, run over exactly one window. */
  function DecodeByte(w: seq<byte>): byte
    requires |w| == 8
  {
    Accumulate(w)
  }

  /** Halving y / 2^m once more is dividing by 2^(m + 1). */
  lemma HalveStep(y: int, m: nat)
    requires 0 <= y && m < 8
    ensures (y / Pow2(m)) / 2 == y / Pow2(m + 1)
  {
  }

  /** A bit shifted in at the bottom falls out again under a shift by m >= 1. */
  lemma ShiftedIn(a: nat, l: nat, m: nat)
    requires l <= 1 && 1 <= m <= 8
    ensures (2 * a + l) / Pow2(m) == a / Pow2(m - 1)
  {
  }

  /** Up to eight bits never overflow the unsigned char: after |w| steps the
      result is below 2^|w|, so the truncation in Accumulate never drops a bit. */
  lemma {:induction false} AccumulateBound(w: seq<byte>)
    requires |w| <= 8
    ensures Accumulate(w) < Pow2(|w|)
    ensures w != [] ==> Accumulate(w) == 2 * Accumulate(w[..|w| - 1]) + Lsb(w[|w| - 1])
  {
    if w != [] {
      AccumulateBound(w[..|w| - 1]);
    }
  }

  /** The result after |w| steps, shifted right by |w| - j, is the result after
      the first j steps. */
  lemma {:induction false} AccumulatePrefix(w: seq<byte>, j: nat)
    requires j <= |w| <= 8
    ensures Accumulate(w) / Pow2(|w| - j) == Accumulate(w[..j])
    decreases |w|
  {
    if j == |w| {
      assert w[..j] == w;
    } else {
      var p := w[..|w| - 1];
      AccumulateBound(w);
      AccumulatePrefix(p, j);
      assert p[..j] == w[..j];
      ShiftedIn(Accumulate(p), Lsb(w[|w| - 1]), |w| - j);
    }
  }

  /** MSB-first: bit (7 - i) of a decoded byte is the least significant bit of
      the i-th carrier byte of its window. */
  lemma DecodeByteBits(w: seq<byte>)
    requires |w| == 8
    ensures forall i :: 0 <= i < 8 ==> Bit(DecodeByte(w), 7 - i) == Lsb(w[i])
  {
    forall i | 0 <= i < 8
      ensures Bit(DecodeByte(w), 7 - i) == Lsb(w[i])
    {
      AccumulatePrefix(w, i + 1);
      var p := w[..i + 1];
      AccumulateBound(p);
      assert p[..i] == w[..i] && p[i] == w[i];
    }
  }

  /** MSB-first: after embedding, the least significant bit of carrier byte i is
      bit (7 - i) of the data byte. */
  lemma EmbedByteMsbFirst(x: byte, c: seq<byte>)
    requires |c| == 8
    ensures forall i :: 0 <= i < 8 ==> Lsb(EmbedByte(x, c)[i]) == Bit(x, 7 - i)
  {
  }

  /** Bit isolation: embedding keeps bits 1..7 of every carrier byte. */
  lemma EmbedByteIsolation(x: byte, c: seq<byte>)
    requires |c| == 8
    ensures forall i :: 0 <= i < 8 ==> EmbedByte(x, c)[i] / 2 == c[i] / 2
  {
  }

  /** Reading back the first j bytes of an embedded window yields the top j
      bits of the data byte. */
  lemma {:induction false} EmbedPrefix(x: byte, c: seq<byte>, j: nat)
    requires |c| == 8 && j <= 8
    ensures Accumulate(EmbedByte(x, c)[..j]) == x / Pow2(8 - j)
  {
    var r := EmbedByte(x, c);
    if j > 0 {
      EmbedPrefix(x, c, j - 1);
      var p := r[..j];
      assert p[..j - 1] == r[..j - 1];
      AccumulateBound(p);
      var y := x / Pow2(8 - j);
      HalveStep(x, 8 - j);
      assert Lsb(p[j - 1]) == y % 2;
      assert Accumulate(p) == 2 * (y / 2) + y % 2;
    }
  }

  /** Byte round trip: whatever the carrier's original bits were, decoding the
      window produced by embedding x yields x. */
  lemma DecodeEmbedByte(x: byte, c: seq<byte>)
    requires |c| == 8
    ensures DecodeByte(EmbedByte(x, c)) == x
  {
    EmbedPrefix(x, c, 8);
    assert EmbedByte(x, c)[..8] == EmbedByte(x, c);
  }

  // ---------------------------------------------------------------------
  // Runs of bytes: one window of eight carrier bytes per data byte
  // ---------------------------------------------------------------------

  /** The carrier bytes c after the bytes of data have been embedded in
      successive windows of eight. */
  function EmbedBytes(data: seq<byte>, c: seq<byte>): (r: seq<byte>)
    requires |c| == 8 * |data|
    ensures |r| == |c|
    decreases |data|
  {
    if data == [] then [] else EmbedByte(data[0], c[..8]) + EmbedBytes(data[1..], c[8..])
  }

  /** The bytes carried by successive windows of eight carrier bytes. */
  function DecodeBytes(w: seq<byte>): (r: seq<byte>)
    requires |w| % 8 == 0
    ensures 8 * |r| == |w|
    decreases |w|
  {
    if w == [] then [] else [DecodeByte(w[..8])] + DecodeBytes(w[8..])
  }

  /** Embedding, byte by byte: carrier byte j takes bit (7 - j % 8) of data
      byte j / 8 and keeps its upper seven bits. */
  lemma {:induction false} EmbedBytesAt(data: seq<byte>, c: seq<byte>, j: nat)
    requires |c| == 8 * |data| && j < |c|
    ensures EmbedBytes(data, c)[j] == WithLsb(c[j], Bit(data[j / 8], 7 - j % 8))
  {
    var head, tail := EmbedByte(data[0], c[..8]), EmbedBytes(data[1..], c[8..]);
    assert EmbedBytes(data, c) == head + tail;
    if j < 8 {
      assert EmbedBytes(data, c)[j] == head[j];
    } else {
      EmbedBytesAt(data[1..], c[8..], j - 8);
      NextWindow(j);
      assert EmbedBytes(data, c)[j] == tail[j - 8];
    }
  }

  /** Index j of a run is index j - 8 of the run after its first window. */
  lemma NextWindow(j: nat)
    requires j >= 8
    ensures (j - 8) / 8 == j / 8 - 1 && (j - 8) % 8 == j % 8
  {
  }

  /** Eight carrier bytes per window: r < 8 bytes left over after i windows
      make i windows in all. */
  lemma WholeWindowsOf(i: nat, r: nat)
    requires r < 8
    ensures (8 * i + r) / 8 == i
  {
  }

  /** Bit isolation for a run: only least significant bits change. */
  lemma EmbedBytesIsolation(data: seq<byte>, c: seq<byte>)
    requires |c| == 8 * |data|
    ensures forall j :: 0 <= j < |c| ==> EmbedBytes(data, c)[j] / 2 == c[j] / 2
  {
    forall j | 0 <= j < |c|
      ensures EmbedBytes(data, c)[j] / 2 == c[j] / 2
    {
      EmbedBytesAt(data, c, j);
    }
  }

  /** Embedding a concatenation writes the first part into the first windows
      and the second part into the windows after them. */
  lemma {:induction false} EmbedBytesAppend(a: seq<byte>, b: seq<byte>, c: seq<byte>)
    requires |c| == 8 * (|a| + |b|)
    ensures EmbedBytes(a + b, c) == EmbedBytes(a, c[..8 * |a|]) + EmbedBytes(b, c[8 * |a|..])
    decreases |a|
  {
    if a == [] {
      assert a + b == b && c[..0] == [] && c[0..] == c;
    } else {
      var ca, cb := c[..8 * |a|], c[8 * |a|..];
      assert (a + b)[0] == a[0];
      assert (a + b)[1..] == a[1..] + b;
      EmbedBytesAppend(a[1..], b, c[8..]);
      assert c[8..][..8 * |a[1..]|] == ca[8..];
      assert c[8..][8 * |a[1..]|..] == cb;
      assert ca[..8] == c[..8];
      calc {
        EmbedBytes(a + b, c);
        EmbedByte(a[0], c[..8]) + EmbedBytes(a[1..] + b, c[8..]);
        EmbedByte(a[0], c[..8]) + (EmbedBytes(a[1..], ca[8..]) + EmbedBytes(b, cb));
        (EmbedByte(a[0], ca[..8]) + EmbedBytes(a[1..], ca[8..])) + EmbedBytes(b, cb);
        EmbedBytes(a, ca) + EmbedBytes(b, cb);
      }
    }
  }

  /** Embedding a concatenation into a concatenation of matching carriers. */
  lemma EmbedBytesConcat(a: seq<byte>, b: seq<byte>, ca: seq<byte>, cb: seq<byte>)
    requires |ca| == 8 * |a| && |cb| == 8 * |b|
    ensures EmbedBytes(a + b, ca + cb) == EmbedBytes(a, ca) + EmbedBytes(b, cb)
  {
    EmbedBytesAppend(a, b, ca + cb);
    assert (ca + cb)[..8 * |a|] == ca && (ca + cb)[8 * |a|..] == cb;
  }

  /** Embedding one more data byte at the end of a run takes the next window
      of the carrier: the run img[p..q] is followed by the window img[q..q+8]. */
  lemma EmbedWindowStep(data: seq<byte>, x: byte, img: seq<byte>, p: nat, q: nat)
    requires q == p + 8 * |data| && q + 8 <= |img|
    ensures EmbedBytes(data + [x], img[p..q + 8]) == EmbedBytes(data, img[p..q]) + EmbedByte(x, img[q..q + 8])
  {
    var c1, w := img[p..q], img[q..q + 8];
    assert img[p..q + 8] == c1 + w;
    EmbedBytesConcat(data, [x], c1, w);
    assert w[..8] == w && w[8..] == [] && [x][1..] == [];
  }

  /** Decoding a concatenation of whole windows decodes each part in turn. */
  lemma {:induction false} DecodeBytesAppend(v: seq<byte>, w: seq<byte>)
    requires |v| % 8 == 0 && |w| % 8 == 0
    ensures DecodeBytes(v + w) == DecodeBytes(v) + DecodeBytes(w)
    decreases |v|
  {
    if v == [] {
      assert v + w == w;
    } else {
      assert (v + w)[..8] == v[..8];
      assert (v + w)[8..] == v[8..] + w;
      DecodeBytesAppend(v[8..], w);
    }
  }

  /** Decoding one more window appends one more byte. */
  lemma DecodeBytesSnoc(v: seq<byte>, w: seq<byte>)
    requires |v| % 8 == 0 && |w| == 8
    ensures DecodeBytes(v + w) == DecodeBytes(v) + [DecodeByte(w)]
  {
    DecodeBytesAppend(v, w);
    assert w[..8] == w && w[8..] == [];
  }

  /** Decoding one more window of the carrier appends one more byte. */
  lemma DecodeWindowStep(img: seq<byte>, p: nat, q: nat)
    requires p <= q && (q - p) % 8 == 0 && q + 8 <= |img|
    ensures DecodeBytes(img[p..q + 8]) == DecodeBytes(img[p..q]) + [DecodeByte(img[q..q + 8])]
  {
    assert img[p..q + 8] == img[p..q] + img[q..q + 8];
    DecodeBytesSnoc(img[p..q], img[q..q + 8]);
  }

  /** Run round trip: decoding the windows produced by embedding data yields
      data, whatever the carrier held before. */
  lemma {:induction false} DecodeEmbedBytes(data: seq<byte>, c: seq<byte>)
    requires |c| == 8 * |data|
    ensures DecodeBytes(EmbedBytes(data, c)) == data
    decreases |data|
  {
    if data != [] {
      var r := EmbedBytes(data, c);
      assert r[..8] == EmbedByte(data[0], c[..8]);
      assert r[8..] == EmbedBytes(data[1..], c[8..]);
      DecodeEmbedByte(data[0], c[..8]);
      DecodeEmbedBytes(data[1..], c[8..]);
    }
  }
}
