/** The encoder: copies the carrier image to the stego image, hiding the frame
    (magic marker, extension length, extension, secret length, secret) in the
    least significant bits of the bytes that follow the 54-byte header.

    The in-place helpers work on arrays as the C helpers work on their stack
    buffers; the field encoders move the read position of the carrier stream
    and append to the stego stream. Each is proved against the value-level
    codec of BitCodec and IntCodec. */
module Encode {
  import opened BitCodec
  import opened IntCodec
  import opened Frame
  import opened Streams

  /** The size of the encoder's extension buffer: four characters and a NUL. */
  const EXTN_BUFFER: nat := 5

  /** The character '.'. */
  const DOT: byte := 0x2E

  /** The extension used for a secret whose name has no dot: ".txt". */
  const TXT: seq<byte> := [0x2E, 0x74, 0x78, 0x74]

  // ---------------------------------------------------------------------
  // The secret's extension
  // ---------------------------------------------------------------------

  /** strrchr(name, '.'): the index of the last dot, if there is one. */
  function LastDot(name: seq<byte>): (r: Option<nat>)
    ensures r.Some? ==> r.value < |name| && name[r.value] == DOT
                        && forall j :: r.value < j < |name| ==> name[j] != DOT
    ensures r.None? ==> forall j :: 0 <= j < |name| ==> name[j] != DOT
    decreases |name|
  {
    if name == [] then None
    else if name[|name| - 1] == DOT then Some(|name| - 1)
    else LastDot(name[..|name| - 1])
  }

  /** The extension stored in extn_secret_file: strncpy of at most four
      characters from the last dot on, or ".txt" when the name has no dot. */
  function SecretExtension(name: seq<byte>): (e: seq<byte>)
    requires NoNul(name)
    ensures 0 < |e| < EXTN_BUFFER && e[0] == DOT && NoNul(e)
  {
    match LastDot(name)
    case Some(d) => name[d..Min(d + EXTN_BUFFER - 1, |name|)]
    case None => TXT
  }

  /** The extension is the part of the name from its last dot, cut to four
      characters, and ".txt" exactly when the name has no dot. */
  lemma SecretExtensionFromLastDot(name: seq<byte>, d: nat)
    requires NoNul(name)
    requires d < |name| && name[d] == DOT
    requires forall j :: d < j < |name| ==> name[j] != DOT
    ensures SecretExtension(name) == name[d..Min(d + 4, |name|)]
  {
    var r := LastDot(name);
    assert r.Some? && r.value == d;
  }

  /** Without a dot in the name, the extension is ".txt". */
  lemma SecretExtensionNoDot(name: seq<byte>)
    requires NoNul(name)
    requires forall j :: 0 <= j < |name| ==> name[j] != DOT
    ensures SecretExtension(name) == TXT
  {
    assert LastDot(name).None?;
  }

  // ---------------------------------------------------------------------
  // Capacity
  // ---------------------------------------------------------------------

  /** A 32-bit header field at offset off, as fread(&x, 4, 1, f) leaves a uint
      x that started at 0: the bytes present at off..off+3, little-endian; a
      read that finds fewer than four bytes leaves the missing high bytes 0. */
  function HeaderField(img: seq<byte>, off: nat): nat
  {
    Assemble(img[Min(off, |img|)..Min(off + 4, |img|)])
  }

  /** width * height * 3 in uint arithmetic, width and height being the
      fields at offsets 18 and 22 of the BITMAPINFOHEADER. */
  function ImageCapacity(img: seq<byte>): nat
  {
    (HeaderField(img, 18) * HeaderField(img, 22) * 3) % WORD
  }

  /** For a header whose width and height fields hold w and h, the capacity is
      w * h * 3 modulo 2^32. */
  lemma ImageCapacityOfHeader(img: seq<byte>, w: nat, h: nat)
    requires |img| >= 26 && w < WORD && h < WORD
    requires img[18..22] == LittleEndian(w) && img[22..26] == LittleEndian(h)
    ensures ImageCapacity(img) == (w * h * 3) % WORD
  {
    HeaderFieldOf(img, 18, w);
    HeaderFieldOf(img, 22, h);
  }

  /** A header field holding the little-endian bytes of v reads as v. */
  lemma HeaderFieldOf(img: seq<byte>, off: nat, v: nat)
    requires off + 4 <= |img| && v < WORD && img[off..off + 4] == LittleEndian(v)
    ensures HeaderField(img, off) == v
  {
    AssembleLittleEndian(v);
  }

  /** A value below 2^32 is its own residue. */
  lemma SmallResidue(x: int)
    requires 0 <= x < WORD
    ensures x % WORD == x
  {
  }

  /** total_required: (magic + 4 + extension + 4 + secret) * 8 + 54 in uint
      arithmetic, the secret's size being the uint get_file_size returns. The
      short lengths are far below 2^32 and need no reduction of their own. */
  function RequiredBytes(magicLen: nat, extnLen: nat, secretLen: nat): nat
  {
    ((magicLen + 4 + extnLen + 4 + secretLen % WORD) * 8 + HEADER_SIZE) % WORD
  }

  /** The test made by check_capacity. */
  predicate CapacityOk(magic: seq<byte>, extn: seq<byte>, secret: seq<byte>, img: seq<byte>)
  {
    RequiredBytes(|magic|, |extn|, |secret|) <= ImageCapacity(img)
  }

  /** Without uint overflow, the capacity check succeeds exactly when the
      frame's carrier bytes plus the header fit in width * height * 3, the
      boundary case included. */
  lemma CapacityExact(magic: seq<byte>, extn: seq<byte>, secret: seq<byte>, img: seq<byte>, w: nat, h: nat)
    requires |img| >= 26 && w < WORD && h < WORD
    requires img[18..22] == LittleEndian(w) && img[22..26] == LittleEndian(h)
    requires w * h * 3 < WORD
    requires (|magic| + 8 + |extn| + |secret|) * 8 + HEADER_SIZE < WORD
    ensures CapacityOk(magic, extn, secret, img)
        <==> (|magic| + 4 + |extn| + 4 + |secret|) * 8 + HEADER_SIZE <= w * h * 3
  {
    assert ImageCapacity(img) == w * h * 3 by {
      ImageCapacityOfHeader(img, w, h);
      SmallResidue(w * h * 3);
    }
    SmallResidue(|secret|);
    var t := (|magic| + 4 + |extn| + 4 + |secret|) * 8 + HEADER_SIZE;
    SmallResidue(t);
    assert RequiredBytes(|magic|, |extn|, |secret|) == t;
  }

  /** With uint overflow the check can pass for a secret far larger than the
      image: a 2-byte magic, a 4-byte extension and a secret of 2^29 - 14 bytes
      need 2^32 + 54 bytes of carrier, which wraps to 54. */
  lemma CapacityWraps()
    ensures RequiredBytes(2, 4, 0x2000_0000 - 14) == HEADER_SIZE
  {
    assert (2 + 4 + 4 + 4 + (0x2000_0000 - 14)) * 8 + HEADER_SIZE == WORD + HEADER_SIZE;
  }

  // ---------------------------------------------------------------------
  // The stego image, as a value
  // ---------------------------------------------------------------------

  /** A successful encoding: the capacity check passes and the carrier holds
      the header and one window of eight bytes per frame byte. */
  predicate EncodeSucceeds(magic: seq<byte>, extn: seq<byte>, secret: seq<byte>, img: seq<byte>)
  {
    CapacityOk(magic, extn, secret, img) && HEADER_SIZE + 8 * |Payload(magic, extn, secret)| <= |img|
  }

  /** The stego image: the carrier's header, the frame in the windows after it,
      and the rest of the carrier unchanged. */
  function StegoImage(magic: seq<byte>, extn: seq<byte>, secret: seq<byte>, img: seq<byte>): (r: seq<byte>)
    requires HEADER_SIZE + 8 * |Payload(magic, extn, secret)| <= |img|
  {
    var e := HEADER_SIZE + 8 * |Payload(magic, extn, secret)|;
    img[..HEADER_SIZE] + EmbedBytes(Payload(magic, extn, secret), img[HEADER_SIZE..e]) + img[e..]
  }

  /** Layout of the stego image: as long as the carrier, the header and the
      bytes after the frame copied unchanged, and no byte of the carrier
      altered above its least significant bit. */
  lemma StegoImageLayout(magic: seq<byte>, extn: seq<byte>, secret: seq<byte>, img: seq<byte>)
    requires HEADER_SIZE + 8 * |Payload(magic, extn, secret)| <= |img|
    ensures var r := StegoImage(magic, extn, secret, img);
      var e := HEADER_SIZE + 8 * |Payload(magic, extn, secret)|;
      |r| == |img| && r[..HEADER_SIZE] == img[..HEADER_SIZE] && r[e..] == img[e..]
      && forall j :: 0 <= j < |img| ==> r[j] / 2 == img[j] / 2
  {
    var p := Payload(magic, extn, secret);
    var e := HEADER_SIZE + 8 * |p|;
    var c := img[HEADER_SIZE..e];
    var r := StegoImage(magic, extn, secret, img);
    EmbedBytesIsolation(p, c);
    forall j | 0 <= j < |img|
      ensures r[j] / 2 == img[j] / 2
    {
      if HEADER_SIZE <= j < e {
        assert r[j] == EmbedBytes(p, c)[j - HEADER_SIZE];
      }
    }
  }

  /** Embedding five runs of data into five matching runs of carrier bytes. */
  lemma EmbedFive(d1: seq<byte>, d2: seq<byte>, d3: seq<byte>, d4: seq<byte>, d5: seq<byte>,
                  c1: seq<byte>, c2: seq<byte>, c3: seq<byte>, c4: seq<byte>, c5: seq<byte>)
    requires |c1| == 8 * |d1| && |c2| == 8 * |d2| && |c3| == 8 * |d3| && |c4| == 8 * |d4| && |c5| == 8 * |d5|
    ensures EmbedBytes(d1 + d2 + d3 + d4 + d5, c1 + c2 + c3 + c4 + c5)
         == EmbedBytes(d1, c1) + EmbedBytes(d2, c2) + EmbedBytes(d3, c3) + EmbedBytes(d4, c4) + EmbedBytes(d5, c5)
  {
    EmbedBytesConcat(d1, d2, c1, c2);
    EmbedBytesConcat(d1 + d2, d3, c1 + c2, c3);
    EmbedBytesConcat(d1 + d2 + d3, d4, c1 + c2 + c3, c4);
    EmbedBytesConcat(d1 + d2 + d3 + d4, d5, c1 + c2 + c3 + c4, c5);
  }

  /** The frame's windows, field by field: embedding the frame into five
      consecutive runs of carrier bytes embeds the magic, the extension length
      a, the extension, the secret length b and the secret, one per run. */
  lemma EmbedPayload(magic: seq<byte>, extn: seq<byte>, secret: seq<byte>, a: seq<byte>, b: seq<byte>,
                     c1: seq<byte>, c2: seq<byte>, c3: seq<byte>, c4: seq<byte>, c5: seq<byte>)
    requires a == LittleEndian(|extn|) && b == LittleEndian(|secret| % WORD)
    requires |c1| == 8 * |magic| && |c2| == 32 && |c3| == 8 * |extn| && |c4| == 32 && |c5| == 8 * |secret|
    ensures EmbedBytes(Payload(magic, extn, secret), c1 + c2 + c3 + c4 + c5)
         == EmbedBytes(magic, c1) + EmbedBytes(a, c2) + EmbedBytes(extn, c3)
            + EmbedBytes(b, c4) + EmbedBytes(secret, c5)
  {
    assert Payload(magic, extn, secret) == magic + a + extn + b + secret;
    EmbedFive(magic, a, extn, b, secret, c1, c2, c3, c4, c5);
  }

  /** The frame's windows field by field: the magic, the extension length a,
      the extension, the secret length b and the secret, each in the carrier
      bytes that follow the previous field. */
  lemma FrameWindows(magic: seq<byte>, extn: seq<byte>, secret: seq<byte>, img: seq<byte>,
                     a: seq<byte>, b: seq<byte>, p1: nat, p2: nat, p3: nat, p4: nat, e: nat)
    requires a == LittleEndian(|extn|) && b == LittleEndian(|secret| % WORD)
    requires p1 == HEADER_SIZE + 8 * |magic| && p2 == p1 + 32 && p3 == p2 + 8 * |extn|
    requires p4 == p3 + 32 && e == p4 + 8 * |secret| && e <= |img|
    ensures HEADER_SIZE + 8 * |Payload(magic, extn, secret)| == e
    ensures EmbedBytes(Payload(magic, extn, secret), img[HEADER_SIZE..e])
         == EmbedBytes(magic, img[HEADER_SIZE..p1]) + EmbedBytes(a, img[p1..p2])
            + EmbedBytes(extn, img[p2..p3]) + EmbedBytes(b, img[p3..p4]) + EmbedBytes(secret, img[p4..e])
  {
    FiveSlices(img, HEADER_SIZE, p1, p2, p3, p4, e);
    EmbedPayload(magic, extn, secret, a, b, img[HEADER_SIZE..p1], img[p1..p2], img[p2..p3], img[p3..p4], img[p4..e]);
  }

  /** The stego image field by field: the header, then the magic, the
      extension's length a, the extension, the secret's length b and the
      secret, each in the carrier bytes after the previous field, then the
      untouched rest of the carrier. */
  lemma StegoImageFields(magic: seq<byte>, extn: seq<byte>, secret: seq<byte>, img: seq<byte>,
                         a: seq<byte>, b: seq<byte>, p1: nat, p2: nat, p3: nat, p4: nat, e: nat, out: seq<byte>)
    requires a == LittleEndian(|extn|) && b == LittleEndian(|secret| % WORD)
    requires p1 == HEADER_SIZE + 8 * |magic| && p2 == p1 + 32 && p3 == p2 + 8 * |extn|
    requires p4 == p3 + 32 && e == p4 + 8 * |secret| && e <= |img|
    requires out == img[..HEADER_SIZE] + EmbedBytes(magic, img[HEADER_SIZE..p1]) + EmbedBytes(a, img[p1..p2])
                    + EmbedBytes(extn, img[p2..p3]) + EmbedBytes(b, img[p3..p4])
                    + EmbedBytes(secret, img[p4..e]) + img[e..]
    ensures HEADER_SIZE + 8 * |Payload(magic, extn, secret)| == e
    ensures out == StegoImage(magic, extn, secret, img)
  {
    FrameWindows(magic, extn, secret, img, a, b, p1, p2, p3, p4, e);
    StegoImageAt(magic, extn, secret, img, e);
    Regroup(img[..HEADER_SIZE], EmbedBytes(magic, img[HEADER_SIZE..p1]), EmbedBytes(a, img[p1..p2]),
            EmbedBytes(extn, img[p2..p3]), EmbedBytes(b, img[p3..p4]), EmbedBytes(secret, img[p4..e]), img[e..]);
  }

  /** StegoImage, for the end e of the frame's windows given by name. */
  lemma StegoImageAt(magic: seq<byte>, extn: seq<byte>, secret: seq<byte>, img: seq<byte>, e: nat)
    requires e == HEADER_SIZE + 8 * (|magic| + 4 + |extn| + 4 + |secret|) && e <= |img|
    ensures HEADER_SIZE + 8 * |Payload(magic, extn, secret)| == e
    ensures StegoImage(magic, extn, secret, img)
         == img[..HEADER_SIZE] + EmbedBytes(Payload(magic, extn, secret), img[HEADER_SIZE..e]) + img[e..]
  {
  }

  /** A run of a sequence cut at four points is the five pieces in order. */
  lemma FiveSlices(s: seq<byte>, p0: nat, p1: nat, p2: nat, p3: nat, p4: nat, e: nat)
    requires p0 <= p1 <= p2 <= p3 <= p4 <= e <= |s|
    ensures s[p0..e] == s[p0..p1] + s[p1..p2] + s[p2..p3] + s[p3..p4] + s[p4..e]
  {
    assert s[p0..p2] == s[p0..p1] + s[p1..p2];
    assert s[p0..p3] == s[p0..p2] + s[p2..p3];
    assert s[p0..p4] == s[p0..p3] + s[p3..p4];
    assert s[p0..e] == s[p0..p4] + s[p4..e];
  }

  /** Concatenation is associative, for seven runs. */
  lemma Regroup(h: seq<byte>, e1: seq<byte>, e2: seq<byte>, e3: seq<byte>, e4: seq<byte>, e5: seq<byte>, t: seq<byte>)
    ensures h + e1 + e2 + e3 + e4 + e5 + t == h + (e1 + e2 + e3 + e4 + e5) + t
  {
    calc {
      h + (e1 + e2 + e3 + e4 + e5);
      { Assoc(h, e1 + e2 + e3 + e4, e5); }
      h + (e1 + e2 + e3 + e4) + e5;
      { Assoc(h, e1 + e2 + e3, e4); }
      h + (e1 + e2 + e3) + e4 + e5;
      { Assoc(h, e1 + e2, e3); }
      h + (e1 + e2) + e3 + e4 + e5;
      { Assoc(h, e1, e2); }
      h + e1 + e2 + e3 + e4 + e5;
    }
  }

  /** Concatenation is associative. */
  lemma Assoc(a: seq<byte>, b: seq<byte>, c: seq<byte>)
    ensures a + (b + c) == a + b + c
  {
  }

  // ---------------------------------------------------------------------
  // In-place helpers on the carrier buffers
  // ---------------------------------------------------------------------

  /** encode_byte_to_lsb: bit (7 - i) of data goes into the least significant
      bit of buf[i], for i = 0..7; nothing past buf[7] is touched. */
  method EncodeByteToLsb(data: byte, buf: array<byte>)
    requires buf.Length >= 8
    modifies buf
    ensures buf[..8] == EmbedByte(data, old(buf[..8]))
    ensures buf[8..] == old(buf[8..])
  {
    for i := 0 to 8
      invariant forall j :: 0 <= j < i ==> buf[j] == WithLsb(old(buf[j]), Bit(data, 7 - j))
      invariant forall j :: i <= j < buf.Length ==> buf[j] == old(buf[j])
    {
      var bit := Bit(data, 7 - i);
      buf[i] := WithLsb(buf[i], bit);
    }
  }

  /** encode_int_to_lsb: byte k of data, (data >> 8k) & 0xFF, goes into
      buf[8k..8k+7] MSB-first, for k = 0..3; nothing past buf[31] is touched. */
  method EncodeIntToLsb(data: int, buf: array<byte>)
    requires -INT_LIMIT <= data < INT_LIMIT
    requires buf.Length >= 32
    modifies buf
    ensures buf[..32] == EmbedBytes(LittleEndian(data), old(buf[..32]))
    ensures buf[32..] == old(buf[32..])
  {
    for k := 0 to 4
      invariant forall j :: 0 <= j < 8 * k ==>
                  buf[j] == WithLsb(old(buf[j]), Bit(ByteOf(data, j / 8), 7 - j % 8))
      invariant forall j :: 8 * k <= j < buf.Length ==> buf[j] == old(buf[j])
    {
      var b := ByteOf(data, k);
      for bit := 0 to 8
        invariant forall j :: 0 <= j < 8 * k + bit ==>
                    buf[j] == WithLsb(old(buf[j]), Bit(ByteOf(data, j / 8), 7 - j % 8))
        invariant forall j :: 8 * k + bit <= j < buf.Length ==> buf[j] == old(buf[j])
      {
        var bitval := Bit(b, 7 - bit);
        assert (8 * k + bit) / 8 == k && (8 * k + bit) % 8 == bit;
        buf[8 * k + bit] := WithLsb(buf[8 * k + bit], bitval);
      }
    }
    forall j | 0 <= j < 32
      ensures buf[j] == EmbedBytes(LittleEndian(data), old(buf[..32]))[j]
    {
      EmbedBytesAt(LittleEndian(data), old(buf[..32]), j);
    }
  }

  // ---------------------------------------------------------------------
  // Field encoders on the streams
  // ---------------------------------------------------------------------

  /** copy_bmp_header: rewinds the carrier and copies its first 54 bytes. */
  method CopyBmpHeader(src: InStream, dst: OutStream) returns (ok: bool)
    requires src.Valid()
    modifies src, dst
    ensures src.Valid()
    ensures ok == (HEADER_SIZE <= |src.data|)
    ensures ok ==> src.pos == HEADER_SIZE && dst.written == old(dst.written) + src.data[..HEADER_SIZE]
    ensures !ok ==> src.pos == |src.data| && dst.written == old(dst.written)
  {
    src.Seek(0);
    var buf := new byte[HEADER_SIZE];
    var got := src.Read(buf, HEADER_SIZE);
    if got != HEADER_SIZE {
      return false;
    }
    dst.Write(buf, HEADER_SIZE);
    return true;
  }

  /** The body of the loops of encode_data_to_image, encode_secret_file_extn
      and encode_secret_file_data: read the next eight carrier bytes, put x
      into their least significant bits, write them out. A short read writes
      nothing. */
  method EncodeWindow(x: byte, src: InStream, dst: OutStream) returns (ok: bool)
    requires src.Valid()
    modifies src, dst
    ensures src.Valid()
    ensures ok == (old(src.pos) + 8 <= |src.data|)
    ensures ok ==> src.pos == old(src.pos) + 8
                   && dst.written == old(dst.written) + EmbedByte(x, src.data[old(src.pos)..src.pos])
    ensures !ok ==> src.pos == |src.data| && dst.written == old(dst.written)
  {
    var buf := new byte[8];
    var got := src.Read(buf, 8);
    if got != 8 {
      return false;
    }
    EncodeByteToLsb(x, buf);
    dst.Write(buf, 8);
    return true;
  }

  /** encode_data_to_image: each data byte takes the next eight carrier bytes.
      A carrier with fewer than eight bytes left for some data byte stops the
      loop after the windows that did fit, with the carrier read to its end. */
  method EncodeDataToImage(data: seq<byte>, src: InStream, dst: OutStream) returns (ok: bool)
    requires src.Valid()
    modifies src, dst
    ensures src.Valid()
    ensures ok == (old(src.pos) + 8 * |data| <= |src.data|)
    ensures ok ==> src.pos == old(src.pos) + 8 * |data|
                   && dst.written == old(dst.written) + EmbedBytes(data, src.data[old(src.pos)..src.pos])
    ensures !ok ==> var k := (|src.data| - old(src.pos)) / 8;
                    k < |data| && src.pos == |src.data|
                    && dst.written == old(dst.written)
                                      + EmbedBytes(data[..k], src.data[old(src.pos)..old(src.pos) + 8 * k])
  {
    ghost var p0, w0 := src.pos, dst.written;
    ghost var sent: seq<byte> := [];
    var i := 0;
    while i < |data|
      invariant 0 <= i <= |data| && sent == data[..i]
      invariant src.Valid() && src.pos == p0 + 8 * i
      invariant dst.written == w0 + EmbedBytes(sent, src.data[p0..src.pos])
    {
      ghost var q := src.pos;
      ok := EncodeWindow(data[i], src, dst);
      if !ok {
        assert (|src.data| - p0) / 8 == i by {
          WholeWindowsOf(i, |src.data| - q);
        }
        assert data[..i] == sent && src.data[p0..p0 + 8 * i] == src.data[p0..q];
        return;
      }
      EmbedWindowStep(sent, data[i], src.data, p0, q);
      assert data[..i + 1] == sent + [data[i]];
      sent := sent + [data[i]];
      i := i + 1;
    }
    assert sent == data;
    return true;
  }

  /** The integer helpers of encode_secret_file_extn_size and
      encode_secret_file_size: read 32 carrier bytes, write v into them, write
      them out. A short read writes nothing. */
  method EncodeIntToImage(v: int, src: InStream, dst: OutStream) returns (ok: bool)
    requires -INT_LIMIT <= v < INT_LIMIT
    requires src.Valid()
    modifies src, dst
    ensures src.Valid()
    ensures ok == (old(src.pos) + 32 <= |src.data|)
    ensures ok ==> src.pos == old(src.pos) + 32
                   && dst.written == old(dst.written) + EmbedBytes(LittleEndian(v), src.data[old(src.pos)..src.pos])
    ensures !ok ==> src.pos == |src.data| && dst.written == old(dst.written)
  {
    var buf := new byte[32];
    var got := src.Read(buf, 32);
    if got != 32 {
      return false;
    }
    EncodeIntToLsb(v, buf);
    dst.Write(buf, 32);
    return true;
  }

  /** copy_remaining_img_data: copies the rest of the carrier in chunks of up
      to 1024 bytes until a read returns nothing. */
  method CopyRemainingImgData(src: InStream, dst: OutStream)
    requires src.Valid()
    modifies src, dst
    ensures src.Valid() && src.pos == |src.data|
    ensures dst.written == old(dst.written) + src.data[old(src.pos)..]
  {
    ghost var p0, w0 := src.pos, dst.written;
    var buf := new byte[1024];
    while true
      invariant src.Valid() && p0 <= src.pos
      invariant dst.written == w0 + src.data[p0..src.pos]
      decreases |src.data| - src.pos
    {
      var got := src.Read(buf, 1024);
      if got == 0 {
        break;
      }
      dst.Write(buf, got);
      assert src.data[p0..src.pos] == src.data[p0..src.pos - got] + buf[..got];
    }
    assert src.data[p0..src.pos] == src.data[p0..];
  }

  // ---------------------------------------------------------------------
  // The encoder's state and its pipeline
  // ---------------------------------------------------------------------

  /** EncodeInfo: the magic marker, the secret's extension, the three open
      streams and the capacity found by check_capacity. */
  class Encoder {
    const magic: seq<byte>
    const extn: seq<byte>
    const src: InStream
    const secret: InStream
    const stego: OutStream
    var imageCapacity: nat

    ghost predicate Valid()
      reads this, src, secret
    {
      src != secret && src.Valid() && secret.Valid() && |extn| < EXTN_BUFFER
    }

    /** The encoder for a carrier image and a secret file named secretName;
        the extension is taken from the name as read_and_validate_encode_args
        does. */
    constructor (magicString: seq<byte>, secretName: seq<byte>, image: seq<byte>, secretData: seq<byte>)
      requires ValidMagic(magicString) && NoNul(secretName)
      ensures Valid()
      ensures magic == magicString && extn == SecretExtension(secretName)
      ensures src.data == image && src.pos == 0
      ensures secret.data == secretData && secret.pos == 0
      ensures stego.written == []
      ensures fresh(src) && fresh(secret) && fresh(stego)
    {
      magic := magicString;
      extn := SecretExtension(secretName);
      src := new InStream(image);
      secret := new InStream(secretData);
      stego := new OutStream();
      imageCapacity := 0;
    }

    /** get_image_size_for_bmp: reads width and height after seeking to offset
        18 and returns width * height * 3 in uint arithmetic. */
    static method GetImageSizeForBmp(f: InStream) returns (capacity: nat)
      requires f.Valid()
      modifies f
      ensures f.Valid() && f.pos == Min(26, |f.data|)
      ensures capacity == ImageCapacity(f.data)
    {
      f.Seek(18);
      var buf := new byte[4];
      var got := f.Read(buf, 4);
      var width := Assemble(buf[..got]);
      got := f.Read(buf, 4);
      var height := Assemble(buf[..got]);
      capacity := (width * height * 3) % WORD;
    }

    /** check_capacity: stores the image capacity and compares it with the
        bytes the frame needs. The secret's size is the length of its data. */
    method CheckCapacity() returns (ok: bool)
      requires Valid()
      modifies this, src
      ensures Valid()
      ensures imageCapacity == ImageCapacity(src.data)
      ensures ok == CapacityOk(magic, extn, secret.data, src.data)
      ensures src.pos == Min(26, |src.data|)
    {
      imageCapacity := GetImageSizeForBmp(src);
      var totalRequired := RequiredBytes(|magic|, |extn|, |secret.data|);
      ok := totalRequired <= imageCapacity;
    }

    /** encode_magic_string. */
    method EncodeMagicString() returns (ok: bool)
      requires Valid()
      modifies src, stego
      ensures Valid()
      ensures ok == (old(src.pos) + 8 * |magic| <= |src.data|)
      ensures ok ==> src.pos == old(src.pos) + 8 * |magic|
                     && stego.written == old(stego.written) + EmbedBytes(magic, src.data[old(src.pos)..src.pos])
    {
      ok := EncodeDataToImage(magic, src, stego);
    }

    /** encode_secret_file_extn_size: the extension's length as an int. */
    method EncodeSecretFileExtnSize() returns (ok: bool)
      requires Valid()
      modifies src, stego
      ensures Valid()
      ensures ok == (old(src.pos) + 32 <= |src.data|)
      ensures ok ==> src.pos == old(src.pos) + 32
                     && stego.written == old(stego.written) + EmbedBytes(LittleEndian(|extn|), src.data[old(src.pos)..src.pos])
    {
      ok := EncodeIntToImage(|extn|, src, stego);
    }

    /** encode_secret_file_extn: the extension's bytes. */
    method EncodeSecretFileExtn() returns (ok: bool)
      requires Valid()
      modifies src, stego
      ensures Valid()
      ensures ok == (old(src.pos) + 8 * |extn| <= |src.data|)
      ensures ok ==> src.pos == old(src.pos) + 8 * |extn|
                     && stego.written == old(stego.written) + EmbedBytes(extn, src.data[old(src.pos)..src.pos])
    {
      ok := EncodeDataToImage(extn, src, stego);
    }

    /** encode_secret_file_size: the secret's size, a uint, passed through long
        and cast to int; the four bytes written are those of the uint. */
    method EncodeSecretFileSize() returns (ok: bool)
      requires Valid()
      modifies src, stego
      ensures Valid()
      ensures ok == (old(src.pos) + 32 <= |src.data|)
      ensures ok ==> src.pos == old(src.pos) + 32
                     && stego.written == old(stego.written)
                                         + EmbedBytes(LittleEndian(|secret.data| % WORD), src.data[old(src.pos)..src.pos])
    {
      var fileSize := |secret.data| % WORD;
      ok := EncodeIntToImage(ToInt32(fileSize), src, stego);
      LittleEndianToInt32(fileSize);
    }

    /** encode_secret_file_data: every byte fgetc delivers from the secret takes
        the next eight carrier bytes; then the rest of the carrier is copied. */
    method EncodeSecretFileData() returns (ok: bool)
      requires Valid()
      modifies src, secret, stego
      ensures Valid()
      ensures ok == (old(src.pos) + 8 * (|secret.data| - old(secret.pos)) <= |src.data|)
      ensures ok ==> var e := old(src.pos) + 8 * (|secret.data| - old(secret.pos));
                     src.pos == |src.data|
                     && stego.written == old(stego.written)
                                         + EmbedBytes(secret.data[old(secret.pos)..], src.data[old(src.pos)..e])
                                         + src.data[e..]
    {
      ghost var p0, s0, w0 := src.pos, secret.pos, stego.written;
      ghost var sent: seq<byte> := [];
      while true
        invariant Valid()
        invariant s0 <= secret.pos && sent == secret.data[s0..secret.pos]
        invariant src.pos == p0 + 8 * |sent|
        invariant stego.written == w0 + EmbedBytes(sent, src.data[p0..src.pos])
        decreases |secret.data| - secret.pos
      {
        var more, ch := secret.Getc();
        if !more {
          break;
        }
        ghost var q := src.pos;
        ok := EncodeWindow(ch, src, stego);
        if !ok {
          return;
        }
        EmbedWindowStep(sent, ch, src.data, p0, q);
        assert secret.data[s0..secret.pos] == sent + [ch];
        sent := sent + [ch];
      }
      assert secret.data[s0..secret.pos] == secret.data[s0..];
      CopyRemainingImgData(src, stego);
      return true;
    }

    /** The first three field encoders of do_encoding: the magic marker, the
        extension's length and the extension, each in the carrier bytes after
        the previous one; p1, p2 and p3 are where the three fields end. */
    method EncodeMarker(ghost p1: nat, ghost p2: nat, ghost p3: nat) returns (ok: bool)
      requires Valid()
      requires p1 == src.pos + 8 * |magic| && p2 == p1 + 32 && p3 == p2 + 8 * |extn|
      modifies src, stego
      ensures Valid()
      ensures ok == (p3 <= |src.data|)
      ensures ok ==> src.pos == p3
                     && stego.written == old(stego.written) + EmbedBytes(magic, src.data[old(src.pos)..p1])
                                         + EmbedBytes(LittleEndian(|extn|), src.data[p1..p2])
                                         + EmbedBytes(extn, src.data[p2..p3])
    {
      ok := EncodeMagicString();
      if !ok {
        return;
      }
      assert src.pos == p1;
      ok := EncodeSecretFileExtnSize();
      if !ok {
        return;
      }
      assert src.pos == p2;
      ok := EncodeSecretFileExtn();
    }

    /** The last two field encoders of do_encoding: the secret's length and the
        secret, followed by the rest of the carrier; p and e are where the two
        fields end. */
    method EncodeSecret(ghost p: nat, ghost e: nat) returns (ok: bool)
      requires Valid() && secret.pos == 0
      requires p == src.pos + 32 && e == p + 8 * |secret.data|
      modifies src, secret, stego
      ensures Valid()
      ensures ok == (e <= |src.data|)
      ensures ok ==> stego.written == old(stego.written)
                                      + EmbedBytes(LittleEndian(|secret.data| % WORD), src.data[old(src.pos)..p])
                                      + EmbedBytes(secret.data, src.data[p..e]) + src.data[e..]
    {
      ok := EncodeSecretFileSize();
      if !ok {
        return;
      }
      assert src.pos == p;
      ok := EncodeSecretFileData();
      if ok {
        assert secret.data[0..] == secret.data;
      }
    }

    /** The five field encoders of do_encoding, in order, from the first
        carrier byte after the header on: the frame fits exactly when every
        field does, and then the stego stream has gained the magic, the
        extension's length, the extension, the secret's length and the secret,
        each in the carrier bytes after the previous field, and then the rest
        of the carrier. p1 to p4 and e are where the five fields end. */
    method EncodeFrame(ghost p1: nat, ghost p2: nat, ghost p3: nat, ghost p4: nat, ghost e: nat) returns (ok: bool)
      requires Valid() && src.pos == HEADER_SIZE <= |src.data| && secret.pos == 0
      requires p1 == HEADER_SIZE + 8 * |magic| && p2 == p1 + 32 && p3 == p2 + 8 * |extn|
      requires p4 == p3 + 32 && e == p4 + 8 * |secret.data|
      modifies src, secret, stego
      ensures ok == (e <= |src.data|)
      ensures ok ==> stego.written == old(stego.written) + EmbedBytes(magic, src.data[HEADER_SIZE..p1])
                                      + EmbedBytes(LittleEndian(|extn|), src.data[p1..p2])
                                      + EmbedBytes(extn, src.data[p2..p3])
                                      + EmbedBytes(LittleEndian(|secret.data| % WORD), src.data[p3..p4])
                                      + EmbedBytes(secret.data, src.data[p4..e]) + src.data[e..]
    {
      ok := EncodeMarker(p1, p2, p3);
      if !ok {
        return;
      }
      ok := EncodeSecret(p4, e);
    }

    /** do_encoding: the capacity check, then the header, then the frame's
        fields in order, then the rest of the carrier. The first step that
        fails ends the encoding. */
    method DoEncoding() returns (ok: bool)
      requires Valid() && src.pos == 0 && secret.pos == 0 && stego.written == []
      modifies this, src, secret, stego
      ensures ok == EncodeSucceeds(magic, extn, secret.data, src.data)
      ensures ok ==> stego.written == StegoImage(magic, extn, secret.data, src.data)
      ensures !CapacityOk(magic, extn, secret.data, src.data) ==> stego.written == []
    {
      ok := CheckCapacity();
      if !ok {
        return;
      }
      ok := CopyBmpHeader(src, stego);
      if !ok {
        return;
      }
      ghost var p1 := HEADER_SIZE + 8 * |magic|;
      ghost var p2 := p1 + 32;
      ghost var p3 := p2 + 8 * |extn|;
      ghost var p4 := p3 + 32;
      ghost var e := p4 + 8 * |secret.data|;
      assert HEADER_SIZE + 8 * |Payload(magic, extn, secret.data)| == e;
      ok := EncodeFrame(p1, p2, p3, p4, e);
      if !ok {
        return;
      }
      StegoImageFields(magic, extn, secret.data, src.data, LittleEndian(|extn|), LittleEndian(|secret.data| % WORD),
                       p1, p2, p3, p4, e, stego.written);
    }
  }
}
