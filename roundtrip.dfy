/** Encoder and decoder together: the decoder reads back, from the image the
    encoder writes, the extension and the secret the encoder hid, under the
    output name built from that extension. */
module RoundTrip {
  import opened BitCodec
  import opened IntCodec
  import opened Frame
  import opened Encode
  import opened Decode

  /** A run b sitting after x at the start of s can be cut back out of s. */
  lemma FieldOf(s: seq<byte>, x: seq<byte>, b: seq<byte>)
    requires |x| + |b| <= |s| && s[..|x| + |b|] == x + b
    ensures s[|x|..|x| + |b|] == b && s[..|x|] == x
  {
    var w := s[..|x| + |b|];
    assert s[|x|..|x| + |b|] == w[|x|..];
    assert s[..|x|] == w[..|x|];
  }

  /** The stego image field by field: the windows of each field of the frame
      hold that field embedded into the carrier bytes at the same place. */
  lemma StegoImageWindows(magic: seq<byte>, extn: seq<byte>, secret: seq<byte>, img: seq<byte>,
                          p1: nat, p2: nat, p3: nat, p4: nat, e: nat)
    requires p1 == HEADER_SIZE + 8 * |magic| && p2 == p1 + 32 && p3 == p2 + 8 * |extn|
    requires p4 == p3 + 32 && e == p4 + 8 * |secret| && e <= |img|
    ensures HEADER_SIZE + 8 * |Payload(magic, extn, secret)| == e
    ensures var s := StegoImage(magic, extn, secret, img);
            |s| == |img|
            && s[HEADER_SIZE..p1] == EmbedBytes(magic, img[HEADER_SIZE..p1])
            && s[p1..p2] == EmbedBytes(LittleEndian(|extn|), img[p1..p2])
            && s[p2..p3] == EmbedBytes(extn, img[p2..p3])
            && s[p3..p4] == EmbedBytes(LittleEndian(|secret| % WORD), img[p3..p4])
            && s[p4..e] == EmbedBytes(secret, img[p4..e])
  {
    var a, b := LittleEndian(|extn|), LittleEndian(|secret| % WORD);
    var h, t := img[..HEADER_SIZE], img[e..];
    var e1, e2, e3 := EmbedBytes(magic, img[HEADER_SIZE..p1]), EmbedBytes(a, img[p1..p2]), EmbedBytes(extn, img[p2..p3]);
    var e4, e5 := EmbedBytes(b, img[p3..p4]), EmbedBytes(secret, img[p4..e]);
    var x1 := h + e1;
    var x2 := x1 + e2;
    var x3 := x2 + e3;
    var x4 := x3 + e4;
    var x5 := x4 + e5;
    var s := x5 + t;
    StegoImageFields(magic, extn, secret, img, a, b, p1, p2, p3, p4, e, s);
    assert |x1| == p1 && |x2| == p2 && |x3| == p3 && |x4| == p4 && |x5| == e;
    assert s[..e] == x5;
    FieldOf(s, x4, e5);
    assert s[p4..e] == e5;
    FieldOf(s, x3, e4);
    assert s[p3..p4] == e4;
    FieldOf(s, x2, e3);
    assert s[p2..p3] == e3;
    FieldOf(s, x1, e2);
    assert s[p1..p2] == e2;
    FieldOf(s, h, e1);
  }

  /** A field's windows decode to the field embedded into them. */
  lemma FieldDecodes(s: seq<byte>, p: nat, d: seq<byte>, c: seq<byte>)
    requires p + 8 * |d| <= |s| && |c| == 8 * |d| && s[p..p + 8 * |d|] == EmbedBytes(d, c)
    ensures Windows(s, p, |d|) == d
  {
    WindowsAsBytes(s, p, |d|);
    DecodeEmbedBytes(d, c);
  }

  /** A length field decodes to the length embedded into it, when that length
      is a non-negative C int. */
  lemma IntFieldDecodes(s: seq<byte>, p: nat, v: nat, c: seq<byte>)
    requires v < INT_LIMIT && p + 32 <= |s| && |c| == 32 && s[p..p + 32] == EmbedBytes(LittleEndian(v), c)
    ensures DecodeInt(s, p) == v
  {
    var w := LittleEndian(v);
    FieldDecodes(s, p, w, c);
    assert Windows(s, p, 4) == w;
    AssembleLittleEndian(v);
    SmallResidue(v);
  }

  /** The round trip of the whole system: the image the encoder writes for a
      marker, an extension that fits the decoder's buffer and a secret whose
      length is a non-negative C int decodes, with that marker, to the secret
      itself, written under the output name followed by the extension. */
  lemma DecodeStegoImage(magic: seq<byte>, extn: seq<byte>, secret: seq<byte>, img: seq<byte>,
                         outputFile: seq<byte>)
    requires ValidMagic(magic) && NoNul(extn) && |extn| < EXTN_CAPACITY && |secret| < INT_LIMIT
    requires HEADER_SIZE + 8 * |Payload(magic, extn, secret)| <= |img|
    ensures DecodeImage(StegoImage(magic, extn, secret, img), magic, outputFile)
            == Decoded(OutputName(outputFile, extn), secret)
  {
    var p1 := HEADER_SIZE + 8 * |magic|;
    var p2 := p1 + 32;
    var p3 := p2 + 8 * |extn|;
    var p4 := p3 + 32;
    var e := p4 + 8 * |secret|;
    StegoImageWindows(magic, extn, secret, img, p1, p2, p3, p4, e);
    var s := StegoImage(magic, extn, secret, img);
    assert Min(HEADER_SIZE, |s|) == HEADER_SIZE;
    FieldDecodes(s, HEADER_SIZE, magic, img[HEADER_SIZE..p1]);
    ImageStage(s, magic, outputFile, HEADER_SIZE, p1);
    IntFieldDecodes(s, p1, |extn|, img[p1..p2]);
    ExtensionStage(s, p1, outputFile);
    assert DecodeImage(s, magic, outputFile) == DecodeNamed(s, p2, |extn|, outputFile);
    SmallResidue(|secret|);
    DecodeNamedFields(s, extn, secret, outputFile, p2, p3, p4, e, img[p2..p3], img[p3..p4], img[p4..e]);
  }

  /** The stages after the extension's length, on the windows of an image
      that hold the extension, the secret's length and the secret. */
  lemma DecodeNamedFields(s: seq<byte>, extn: seq<byte>, secret: seq<byte>, outputFile: seq<byte>,
                          p2: nat, p3: nat, p4: nat, e: nat, c1: seq<byte>, c2: seq<byte>, c3: seq<byte>)
    requires NoNul(extn) && |secret| < INT_LIMIT
    requires p3 == p2 + 8 * |extn| && p4 == p3 + 32 && e == p4 + 8 * |secret| && e <= |s|
    requires |c1| == 8 * |extn| && |c2| == 32 && |c3| == 8 * |secret|
    requires s[p2..p3] == EmbedBytes(extn, c1)
    requires s[p3..p4] == EmbedBytes(LittleEndian(|secret|), c2)
    requires s[p4..e] == EmbedBytes(secret, c3)
    ensures DecodeNamed(s, p2, |extn|, outputFile) == Decoded(OutputName(outputFile, extn), secret)
  {
    FieldDecodes(s, p2, extn, c1);
    IntFieldDecodes(s, p3, |secret|, c2);
    var buf := extn + [0];
    assert buf[..|extn|] == extn;
    NamedStep(s, p2, |extn|, outputFile, p3, buf, |secret|);
    assert CStr(buf) == extn by {
      CStrTerminated(extn);
      CStrNoNul(extn);
    }
    var name := OutputName(outputFile, extn);
    assert DecodeNamed(s, p2, |extn|, outputFile) == DecodeSecret(s, p4, |secret|, name);
    FieldDecodes(s, p4, secret, c3);
    SecretDone(s, p4, |secret|, name, |secret|);
  }

  /** The whole system end to end: whenever the encoder succeeds, decoding its
      output gives back the secret under the name the extension implies. */
  lemma EncodeThenDecode(magic: seq<byte>, secretName: seq<byte>, secret: seq<byte>, img: seq<byte>,
                         outputFile: seq<byte>)
    requires ValidMagic(magic) && NoNul(secretName) && |secret| < INT_LIMIT
    requires EncodeSucceeds(magic, SecretExtension(secretName), secret, img)
    ensures var extn := SecretExtension(secretName);
            DecodeImage(StegoImage(magic, extn, secret, img), magic, outputFile)
            == Decoded(OutputName(outputFile, extn), secret)
  {
    DecodeStegoImage(magic, SecretExtension(secretName), secret, img, outputFile);
  }

  /** The marker guards the frame: an image encoded with one marker and
      decoded with another of the same length is rejected at the marker. */
  lemma WrongMagicRejected(magic: seq<byte>, other: seq<byte>, extn: seq<byte>, secret: seq<byte>,
                           img: seq<byte>, outputFile: seq<byte>)
    requires |other| == |magic| && other != magic
    requires HEADER_SIZE + 8 * |Payload(magic, extn, secret)| <= |img|
    ensures DecodeImage(StegoImage(magic, extn, secret, img), other, outputFile) == Failed(MagicMismatch)
  {
    var p1 := HEADER_SIZE + 8 * |magic|;
    var p2 := p1 + 32;
    var p3 := p2 + 8 * |extn|;
    var p4 := p3 + 32;
    var e := p4 + 8 * |secret|;
    StegoImageWindows(magic, extn, secret, img, p1, p2, p3, p4, e);
    var s := StegoImage(magic, extn, secret, img);
    assert Min(HEADER_SIZE, |s|) == HEADER_SIZE;
    FieldDecodes(s, HEADER_SIZE, magic, img[HEADER_SIZE..p1]);
  }
}
