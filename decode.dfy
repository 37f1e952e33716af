/** The decoder: skips the 54-byte header of the stego image and reads the
    frame back from the least significant bits of the bytes that follow,
    field by field, writing the secret to an output stream.

    DecodeImage states, on values, what a whole decoding yields; the Decoder
    class follows decode.c function by function and DoDecoding is proved
    against DecodeImage. */
module Decode {
  import opened BitCodec
  import opened IntCodec
  import opened Frame
  import opened Streams

  /** The size of the decoder's extension buffer, char extn[10]. */
  const EXTN_CAPACITY: nat := 10

  /** The size of the buffer the output name is formatted into,
      char secret_name[256]: at most 255 characters and a NUL. */
  const NAME_BUFFER: nat := 256

  // ---------------------------------------------------------------------
  // The decoding, as a value
  // ---------------------------------------------------------------------

  /** The value of the 4-byte field whose windows start at p: four decoded
      bytes reassembled little-endian into a 32-bit pattern and read as a
      C int. */
  function DecodeInt(img: seq<byte>, p: nat): (v: int)
    requires p + 32 <= |img|
    ensures -INT_LIMIT <= v < INT_LIMIT
  {
    ToInt32(Assemble(Windows(img, p, 4)))
  }

  /** The n bytes decoded from the n windows of eight carrier bytes that
      start at p. This is DecodeBytes read in place, one window added at the
      end per step as the decoder's loops add them, so that it needs no
      slice of its own and no divisibility precondition; WindowsAsBytes
      shows the two agree. */
  function Windows(img: seq<byte>, p: nat, n: nat): (r: seq<byte>)
    requires p + 8 * n <= |img|
    ensures |r| == n
  {
    if n == 0 then [] else Windows(img, p, n - 1) + [DecodeByte(img[p + 8 * (n - 1)..p + 8 * n])]
  }

  /** The number of whole windows in m carrier bytes. */
  function WholeWindows(m: nat): (k: nat)
    ensures 8 * k <= m < 8 * k + 8
  {
    m / 8
  }

  /** The check of decode_secret_extn_size as written: a size of 10 or more
      is rejected, anything else accepted. */
  predicate ExtnSizeAcceptedAsWritten(size: int)
  {
    !(size >= EXTN_CAPACITY)
  }

  /** The check decode_secret_extn_size needs: the extension and its
      terminator fit the extension buffer. */
  predicate ExtnSizeAccepted(size: int)
  {
    0 <= size < EXTN_CAPACITY
  }

  /** snprintf(name, 256, "%s%s", output_file, extn): the two strings one
      after the other, cut to the 255 characters the buffer holds. */
  function OutputName(outputFile: seq<byte>, extn: seq<byte>): seq<byte>
  {
    var s := outputFile + extn;
    if |s| < NAME_BUFFER then s else s[..NAME_BUFFER - 1]
  }

  /** The name is the output base name followed by the extension, cut to
      exactly 255 characters when it is longer; nothing is cut when both fit. */
  lemma OutputNameFormat(outputFile: seq<byte>, extn: seq<byte>)
    ensures var name := OutputName(outputFile, extn);
            |name| == Min(|outputFile| + |extn|, NAME_BUFFER - 1) && name == (outputFile + extn)[..|name|]
            && (|outputFile| + |extn| < NAME_BUFFER <==> name == outputFile + extn)
  {
  }

  /** Where the decoder stops when it cannot go on. */
  datatype Reason = Truncated | MagicMismatch | ExtnSizeRejected

  /** The outcome of a decoding: it fails before the output file is created;
      or the output file is created and the secret's bytes are written to it,
      all of them (Decoded) or as many as the image still holds (Cut). */
  datatype Outcome =
    | Failed(reason: Reason)
    | Decoded(name: seq<byte>, secret: seq<byte>)
    | Cut(name: seq<byte>, secret: seq<byte>)

  /** The number of bytes decode_secret_data writes for a declared size: none
      for a negative size, as its loop then does not run. */
  function SecretCount(size: int): nat
  {
    if size < 0 then 0 else size
  }

  /** The decoding of a whole stego image with marker magic into an output
      file named from outputFile: the header is skipped, then the marker is
      read and compared, and the rest of the frame follows from byte p1. */
  function DecodeImage(img: seq<byte>, magic: seq<byte>, outputFile: seq<byte>): Outcome
  {
    var p0 := Min(HEADER_SIZE, |img|);
    var p1 := p0 + 8 * |magic|;
    if |img| < p1 then Failed(Truncated)
    else if Windows(img, p0, |magic|) != magic then Failed(MagicMismatch)
    else DecodeExtension(img, p1, outputFile)
  }

  /** From the extension's length field at p1 on: the length is read and
      checked, then the extension follows it. */
  function DecodeExtension(img: seq<byte>, p1: nat, outputFile: seq<byte>): Outcome
  {
    if |img| < p1 + 32 then Failed(Truncated)
    else
      var extnSize := DecodeInt(img, p1);
      if !ExtnSizeAccepted(extnSize) then Failed(ExtnSizeRejected)
      else DecodeNamed(img, p1 + 32, extnSize, outputFile)
  }

  /** From the extension at q on, extnSize bytes of it: the extension and the
      secret's length are read, and the output name is formed. */
  function DecodeNamed(img: seq<byte>, q: nat, extnSize: nat, outputFile: seq<byte>): Outcome
  {
    var p2 := q + 8 * extnSize;
    if |img| < p2 + 32 then Failed(Truncated)
    else
      var name := OutputName(outputFile, CStr(Windows(img, q, extnSize)));
      DecodeSecret(img, p2 + 32, DecodeInt(img, p2), name)
  }

  /** From the secret at p3 on, with its declared size: the bytes decoded into
      the output file called name, all of them if the image holds them. */
  function DecodeSecret(img: seq<byte>, p3: nat, size: int, name: seq<byte>): (r: Outcome)
    requires p3 <= |img|
    ensures r.Decoded? || r.Cut?
    ensures r.name == name
  {
    var n := SecretCount(size);
    if p3 + 8 * n <= |img| then Decoded(name, Windows(img, p3, n))
    else Cut(name, Windows(img, p3, WholeWindows(|img| - p3)))
  }

  // ---------------------------------------------------------------------
  // Properties of the checks
  // ---------------------------------------------------------------------

  /** strcmp on the terminated buffer: the decoded bytes, with a NUL after
      them, compare equal to the marker exactly when they are the marker. */
  lemma MagicCheck(decoded: seq<byte>, magic: seq<byte>)
    requires |decoded| == |magic| && NoNul(magic)
    ensures CStr(decoded + [0]) == magic <==> decoded == magic
  {
    CStrTerminated(decoded);
    CStrPrefix(decoded);
    if decoded == magic {
      CStrNoNul(magic);
    }
  }

  /** A NUL after a buffer does not change the C string it holds. */
  lemma {:induction false} CStrTerminated(s: seq<byte>)
    ensures CStr(s + [0]) == CStr(s)
  {
    if s != [] && s[0] != 0 {
      assert (s + [0])[1..] == s[1..] + [0];
      CStrTerminated(s[1..]);
    }
  }

  /** The C string of a buffer with a NUL at index k lies within its first k
      bytes. */
  lemma {:induction false} CStrAtTerminator(s: seq<byte>, k: nat)
    requires k < |s| && s[k] == 0
    ensures CStr(s) == CStr(s[..k])
  {
    if k > 0 && s[0] != 0 {
      assert s[1..][..k - 1] == s[..k][1..];
      CStrAtTerminator(s[1..], k - 1);
    }
  }

  /** The check as written lets a negative size through: the field whose four
      bytes are 00 00 00 80 reads as -2^31, which is not 10 or more, and
      extn[-2^31] lies outside the buffer. */
  lemma ExtnSizeAsWrittenAdmitsNegative()
    ensures LittleEndian(INT_LIMIT) == [0, 0, 0, 0x80]
    ensures Assemble([0, 0, 0, 0x80]) == INT_LIMIT
    ensures ToInt32(INT_LIMIT) == -INT_LIMIT
    ensures ExtnSizeAcceptedAsWritten(-INT_LIMIT) && !ExtnSizeAccepted(-INT_LIMIT)
  {
    AssembleFour([0, 0, 0, 0x80]);
  }

  /** An image whose extension-length field holds 00 00 00 80 gets past the
      check as written, whatever else it holds. */
  lemma ExtnSizeFieldAsWritten(img: seq<byte>, p: nat)
    requires p + 32 <= |img| && DecodeBytes(img[p..p + 32]) == [0, 0, 0, 0x80]
    ensures DecodeInt(img, p) == -INT_LIMIT
    ensures ExtnSizeAcceptedAsWritten(DecodeInt(img, p)) && !ExtnSizeAccepted(DecodeInt(img, p))
  {
    WindowsAsBytes(img, p, 4);
    ExtnSizeAsWrittenAdmitsNegative();
  }

  // ---------------------------------------------------------------------
  // Reading from the stego stream
  // ---------------------------------------------------------------------

  /** decode_byte_from_lsb: reads eight bytes one at a time and shifts the
      least significant bit of each into the result, most significant bit
      first. When the stream ends first, the bytes that were there are
      consumed and nothing is returned. */
  method DecodeByteFromLsb(f: InStream) returns (ok: bool, ch: byte)
    requires f.Valid()
    modifies f
    ensures f.Valid()
    ensures ok == (old(f.pos) + 8 <= |f.data|)
    ensures ok ==> f.pos == old(f.pos) + 8 && ch == DecodeByte(f.data[old(f.pos)..f.pos])
    ensures !ok ==> f.pos == |f.data|
  {
    ghost var p0 := f.pos;
    var result: byte := 0;
    for i := 0 to 8
      invariant f.Valid() && f.pos == p0 + i
      invariant result == Accumulate(f.data[p0..f.pos])
    {
      var got, imgByte := f.Getc();
      if !got {
        return false, 0;
      }
      assert f.data[p0..f.pos][..i] == f.data[p0..f.pos - 1];
      result := (2 * result + imgByte % 2) % 0x100;
    }
    return true, result;
  }

  /** The loop shared by decode_secret_extn_size and
      decode_secret_file_size: four bytes decoded and or-ed into place
      little-endian; the 32-bit result is the C int of that bit pattern. */
  method DecodeIntFromLsb(f: InStream) returns (ok: bool, v: int)
    requires f.Valid()
    modifies f
    ensures f.Valid()
    ensures ok == (old(f.pos) + 32 <= |f.data|)
    ensures ok ==> f.pos == old(f.pos) + 32 && v == DecodeInt(f.data, old(f.pos))
    ensures !ok ==> f.pos == |f.data|
  {
    ghost var img, p0 := f.data, f.pos;
    ghost var bytes: seq<byte> := [];
    var size := 0;
    for i := 0 to 4
      invariant f.Valid() && f.pos == p0 + 8 * i && |bytes| == i
      invariant bytes == Windows(img, p0, i) && size == Assemble(bytes)
    {
      ghost var q := f.pos;
      var got, ch := DecodeByteFromLsb(f);
      if !got {
        return false, 0;
      }
      WindowsStep(img, p0, i);
      assert (bytes + [ch])[..i] == bytes;
      bytes := bytes + [ch];
      size := size + ch * Scale(i);
    }
    LittleEndianAssemble(bytes);
    return true, ToInt32(size);
  }

  /** The loop of decode_secret_data: size bytes decoded one window at a time
      and written to out as they come (none for a negative size). When the
      stream ends first, the bytes of the whole windows it held are written. */
  method DecodeDataFromLsb(f: InStream, out: OutStream, size: int) returns (ok: bool)
    requires f.Valid() && out.written == []
    modifies f, out
    ensures f.Valid()
    ensures var p0, n := old(f.pos), SecretCount(size);
            ok == (p0 + 8 * n <= |f.data|)
            && (ok ==> f.pos == p0 + 8 * n && out.written == Windows(f.data, p0, n))
            && (!ok ==> out.written == Windows(f.data, p0, WholeWindows(|f.data| - p0)))
  {
    ghost var img, p0 := f.data, f.pos;
    ghost var sent: seq<byte> := [];
    var i := 0;
    while i < size
      invariant f.Valid() && 0 <= i && (i <= size || i == 0)
      invariant f.pos == p0 + 8 * i && sent == Windows(img, p0, i)
      invariant out.written == sent
    {
      ghost var q := f.pos;
      var got, ch := DecodeByteFromLsb(f);
      if !got {
        WholeWindowsOf(i, |img| - q);
        return false;
      }
      out.Put(ch);
      WindowsStep(img, p0, i);
      sent := sent + [ch];
      i := i + 1;
    }
    return true;
  }

  // ---------------------------------------------------------------------
  // The decoder's state and its pipeline
  // ---------------------------------------------------------------------

  /** DecodeInfo: the output file's base name, the stego stream, the decoded
      extension's length, the extension buffer, the secret's length, and the
      output file with its name. */
  class Decoder {
    const magic: seq<byte>
    const outputFile: seq<byte>
    const stego: InStream
    var extnSize: int
    const extn: array<byte>
    var secretSize: int
    var secretName: seq<byte>
    var secretFile: OutStream

    ghost predicate Valid()
      reads this, stego
    {
      stego.Valid() && extn.Length == EXTN_CAPACITY
    }

    /** The decoder for a stego image, with marker magicString and output base
        name outputName; the output file is not yet created. */
    constructor (magicString: seq<byte>, outputName: seq<byte>, image: seq<byte>)
      requires ValidMagic(magicString) && NoNul(outputName)
      ensures Valid() && ValidMagic(magic)
      ensures magic == magicString && outputFile == outputName
      ensures stego.data == image && stego.pos == 0
      ensures fresh(stego) && fresh(extn)
    {
      magic := magicString;
      outputFile := outputName;
      stego := new InStream(image);
      extnSize := 0;
      extn := new byte[EXTN_CAPACITY];
      secretSize := 0;
      secretName := [];
      secretFile := new OutStream();
    }

    /** skip_bmp_header: fseek to offset 54, which succeeds whatever the
        stream's length. */
    method SkipBmpHeader() returns (ok: bool)
      requires Valid()
      modifies stego
      ensures Valid()
      ensures ok && stego.pos == Min(HEADER_SIZE, |stego.data|)
    {
      stego.Seek(HEADER_SIZE);
      return true;
    }

    /** decode_magic_string: decodes |magic| bytes into a 16-byte buffer,
        terminates it and compares it with the marker as C strings. */
    method DecodeMagicString(ghost start: nat, ghost end: nat) returns (ok: bool)
      requires Valid() && ValidMagic(magic) && start == stego.pos && end == start + 8 * |magic|
      modifies stego
      ensures Valid()
      ensures ok == (end <= |stego.data| && Windows(stego.data, start, |magic|) == magic)
      ensures end <= |stego.data| ==> stego.pos == end
    {
      ghost var img, p0 := stego.data, stego.pos;
      ghost var sent: seq<byte> := [];
      var len := |magic|;
      var decoded := new byte[16];
      for i := 0 to len
        modifies stego, decoded
        invariant stego.Valid() && stego.pos == p0 + 8 * i && |sent| == i
        invariant sent == Windows(img, p0, i) && decoded[..i] == sent
      {
        ghost var q := stego.pos;
        var got, ch := DecodeByteFromLsb(stego);
        if !got {
          return false;
        }
        WindowsStep(img, p0, i);
        decoded[i] := ch;
        sent := sent + [ch];
        assert decoded[..i + 1] == sent;
      }
      decoded[len] := 0;
      assert decoded[..len + 1] == sent + [0];
      MagicCheck(sent, magic);
      ok := CStr(decoded[..len + 1]) == magic;
    }

    /** decode_secret_extn_size: the extension's length, stored whether or not
        it is accepted; accepted only if the extension and its terminator fit
        the extension buffer. */
    method DecodeSecretExtnSize(ghost start: nat, ghost end: nat) returns (ok: bool)
      requires Valid() && start == stego.pos && end == start + 32
      modifies this, stego
      ensures Valid()
      ensures ok == (end <= |stego.data| && ExtnSizeAccepted(DecodeInt(stego.data, start)))
      ensures end <= |stego.data| ==> stego.pos == end && extnSize == DecodeInt(stego.data, start)
      ensures ok ==> 0 <= extnSize < extn.Length
      ensures secretSize == old(secretSize)
      ensures secretName == old(secretName) && secretFile == old(secretFile)
    {
      var got, size := DecodeIntFromLsb(stego);
      if !got {
        return false;
      }
      extnSize := size;
      ok := ExtnSizeAccepted(extnSize);
    }

    /** decode_secret_extn: extnSize bytes into the extension buffer, then its
        terminator. */
    method DecodeSecretExtn(ghost start: nat, ghost end: nat) returns (ok: bool)
      requires Valid() && 0 <= extnSize < extn.Length && start == stego.pos && end == start + 8 * extnSize
      modifies stego, extn
      ensures Valid()
      ensures ok == (end <= |stego.data|)
      ensures ok ==> stego.pos == end && extn[..extnSize] == Windows(stego.data, start, extnSize)
                     && extn[extnSize] == 0
      ensures extn[extnSize + 1..] == old(extn[extnSize + 1..])
    {
      ghost var img, p0 := stego.data, stego.pos;
      ghost var sent: seq<byte> := [];
      ghost var tail := extn[extnSize + 1..];
      for i := 0 to extnSize
        modifies stego, extn
        invariant stego.Valid() && stego.pos == p0 + 8 * i && |sent| == i
        invariant sent == Windows(img, p0, i) && extn[..i] == sent
        invariant extn[extnSize + 1..] == tail
      {
        ghost var q := stego.pos;
        var got, ch := DecodeByteFromLsb(stego);
        if !got {
          return false;
        }
        WindowsStep(img, p0, i);
        extn[i] := ch;
        sent := sent + [ch];
        assert extn[..i + 1] == sent;
      }
      extn[extnSize] := 0;
      return true;
    }

    /** decode_secret_file_size: the secret's length, as a C int. */
    method DecodeSecretFileSize(ghost start: nat, ghost end: nat) returns (ok: bool)
      requires Valid() && start == stego.pos && end == start + 32
      modifies this, stego
      ensures Valid()
      ensures ok == (end <= |stego.data|)
      ensures ok ==> stego.pos == end && secretSize == DecodeInt(stego.data, start)
      ensures extnSize == old(extnSize)
      ensures secretName == old(secretName) && secretFile == old(secretFile)
    {
      var got, size := DecodeIntFromLsb(stego);
      if !got {
        return false;
      }
      secretSize := size;
      return true;
    }

    /** decode_secret_data: creates the output file, named from the output base
        name and the extension, and writes to it one decoded byte per window,
        secretSize of them; when the stream ends first, the bytes decoded so
        far stay written. */
    method DecodeSecretData(ghost start: nat, ghost buf: seq<byte>, ghost size: int) returns (ok: bool)
      requires Valid() && start == stego.pos && buf == extn[..] && size == secretSize
      modifies this, stego
      ensures Valid() && fresh(secretFile)
      ensures secretName == OutputName(outputFile, CStr(buf))
      ensures var r := DecodeSecret(stego.data, start, size, secretName);
              ok == r.Decoded? && secretFile.written == r.secret
      ensures ok ==> stego.pos == start + 8 * SecretCount(size)
      ensures extnSize == old(extnSize) && secretSize == old(secretSize)
    {
      secretName := OutputName(outputFile, CStr(extn[..]));
      secretFile := new OutStream();
      ghost var img, name := stego.data, secretName;
      ok := DecodeDataFromLsb(stego, secretFile, secretSize);
      if ok {
        SecretDone(img, start, size, name, SecretCount(size));
      } else {
        SecretCut(img, start, size, name, WholeWindows(|img| - start));
      }
    }

    /** do_decoding: skip the header and decode the marker, then the rest of
        the frame, stopping at the first step that fails. The result is
        DecodeImage's. */
    method DoDecoding() returns (ok: bool)
      requires Valid() && ValidMagic(magic)
      modifies this, stego, extn
      ensures var r := DecodeImage(stego.data, magic, outputFile);
              ok == r.Decoded?
              && (r.Decoded? || r.Cut? ==> fresh(secretFile) && secretName == r.name && secretFile.written == r.secret)
      ensures var r := DecodeImage(stego.data, magic, outputFile);
              r.Decoded? ==> stego.pos == HEADER_SIZE + 8 * (|magic| + 4 + extnSize + 4 + |r.secret|)
    {
      ok := SkipBmpHeader();
      ghost var p0 := stego.pos;
      ghost var p1 := p0 + 8 * |magic|;
      ok := DecodeMagicString(p0, p1);
      if !ok {
        ImageFails(stego.data, magic, outputFile, p0, p1);
        return;
      }
      ImageStage(stego.data, magic, outputFile, p0, p1);
      ok := DecodeFrame(p1);
    }

    /** The steps of do_decoding after the marker: the extension's length,
        then the rest of the frame unless that length is refused. The result
        is DecodeExtension's. */
    method DecodeFrame(ghost p1: nat) returns (ok: bool)
      requires Valid() && stego.pos == p1
      modifies this, stego, extn
      ensures var r := DecodeExtension(stego.data, p1, outputFile);
              ok == r.Decoded?
              && (r.Decoded? || r.Cut? ==> fresh(secretFile) && secretName == r.name && secretFile.written == r.secret)
      ensures var r := DecodeExtension(stego.data, p1, outputFile);
              r.Decoded? ==> stego.pos == p1 + 32 + 8 * extnSize + 32 + 8 * |r.secret|
    {
      ghost var img := stego.data;
      ghost var r := DecodeExtension(img, p1, outputFile);
      ghost var q := p1 + 32;
      ok := DecodeSecretExtnSize(p1, q);
      ExtensionStage(img, p1, outputFile);
      if !ok {
        assert r.Failed?;
        return;
      }
      assert r == DecodeNamed(img, q, extnSize, outputFile);
      ok := DecodeNamedFrame(q, extnSize);
    }

    /** The steps of do_decoding after the extension's length: the extension,
        the secret's length and the secret, stopping at the first that fails.
        The result is DecodeNamed's. */
    method DecodeNamedFrame(ghost q: nat, ghost size: nat) returns (ok: bool)
      requires Valid() && stego.pos == q && size == extnSize && extnSize < extn.Length
      modifies this, stego, extn
      ensures var r := DecodeNamed(stego.data, q, size, outputFile);
              ok == r.Decoded?
              && (r.Decoded? || r.Cut? ==> fresh(secretFile) && secretName == r.name && secretFile.written == r.secret)
      ensures var r := DecodeNamed(stego.data, q, size, outputFile);
              r.Decoded? ==> stego.pos == q + 8 * size + 32 + 8 * |r.secret|
      ensures extnSize == size
    {
      ghost var img := stego.data;
      ghost var r := DecodeNamed(img, q, size, outputFile);
      ghost var p2 := q + 8 * size;
      ok := DecodeSecretExtn(q, p2);
      if !ok {
        NamedTruncated(img, q, size, outputFile);
        assert r.Failed?;
        return;
      }
      ghost var p3 := p2 + 32;
      ok := DecodeSecretFileSize(p2, p3);
      if !ok {
        NamedTruncated(img, q, size, outputFile);
        assert r.Failed?;
        return;
      }
      ghost var buf := extn[..];
      ghost var name := OutputName(outputFile, CStr(buf));
      NamedStep(img, q, size, outputFile, p2, buf, secretSize);
      assert r == DecodeSecret(img, p3, secretSize, name);
      ok := DecodeSecretData(p3, buf, secretSize);
      assert secretName == name == r.name;
    }
  }

  /** The first stage: a marker that decodes in full hands over to the
      rest of the frame. */
  lemma ImageStage(img: seq<byte>, magic: seq<byte>, outputFile: seq<byte>, p0: nat, p1: nat)
    requires p0 == Min(HEADER_SIZE, |img|) && p1 == p0 + 8 * |magic|
    requires p1 <= |img| && Windows(img, p0, |magic|) == magic
    ensures DecodeImage(img, magic, outputFile) == DecodeExtension(img, p1, outputFile)
  {
    assert Min(HEADER_SIZE, |img|) == p0;
  }

  /** The first stage, otherwise: the decoding fails at the marker. */
  lemma ImageFails(img: seq<byte>, magic: seq<byte>, outputFile: seq<byte>, p0: nat, p1: nat)
    requires p0 == Min(HEADER_SIZE, |img|) && p1 == p0 + 8 * |magic|
    requires !(p1 <= |img| && Windows(img, p0, |magic|) == magic)
    ensures DecodeImage(img, magic, outputFile).Failed?
  {
  }

  /** The second stage: the extension's length decides whether the extension
      is read. */
  lemma ExtensionStage(img: seq<byte>, p1: nat, outputFile: seq<byte>)
    ensures p1 + 32 <= |img| && ExtnSizeAccepted(DecodeInt(img, p1))
            ==> DecodeExtension(img, p1, outputFile)
                == DecodeNamed(img, p1 + 32, DecodeInt(img, p1), outputFile)
    ensures !(p1 + 32 <= |img| && ExtnSizeAccepted(DecodeInt(img, p1)))
            ==> DecodeExtension(img, p1, outputFile).Failed?
  {
  }

  /** The stage after the extension's length fails when the image ends
      before the secret's length does. */
  lemma NamedTruncated(img: seq<byte>, q: nat, extnSize: nat, outputFile: seq<byte>)
    requires |img| < q + 8 * extnSize + 32
    ensures DecodeNamed(img, q, extnSize, outputFile) == Failed(Truncated)
  {
  }

  /** The stage after the extension's length, once the extension and the
      secret's length are read. */
  lemma NamedStep(img: seq<byte>, q: nat, extnSize: nat, outputFile: seq<byte>,
                  p2: nat, buf: seq<byte>, size: int)
    requires p2 == q + 8 * extnSize && p2 + 32 <= |img| && extnSize < |buf|
    requires buf[..extnSize] == Windows(img, q, extnSize) && buf[extnSize] == 0
    requires size == DecodeInt(img, p2)
    ensures DecodeNamed(img, q, extnSize, outputFile)
         == DecodeSecret(img, p2 + 32, size, OutputName(outputFile, CStr(buf)))
  {
    CStrAtTerminator(buf, extnSize);
    var extn := Windows(img, q, extnSize);
    assert CStr(buf) == CStr(extn);
    var name := OutputName(outputFile, CStr(extn));
    assert DecodeNamed(img, q, extnSize, outputFile) == DecodeSecret(img, p2 + 32, size, name);
  }

  /** The secret decoded in full: every one of its windows was read. */
  lemma SecretDone(img: seq<byte>, p3: nat, size: int, name: seq<byte>, i: nat)
    requires p3 + 8 * i <= |img| && i == SecretCount(size)
    ensures DecodeSecret(img, p3, size, name) == Decoded(name, Windows(img, p3, i))
  {
  }

  /** The secret cut short: the image ended inside window i. */
  lemma SecretCut(img: seq<byte>, p3: nat, size: int, name: seq<byte>, i: nat)
    requires p3 + 8 * i <= |img| < p3 + 8 * i + 8 && i < SecretCount(size)
    ensures DecodeSecret(img, p3, size, name) == Cut(name, Windows(img, p3, i))
  {
    WholeWindowsOf(i, |img| - p3 - 8 * i);
  }

  /** One more window decodes to one more byte. */
  lemma WindowsStep(img: seq<byte>, p: nat, n: nat)
    requires p + 8 * n + 8 <= |img|
    ensures Windows(img, p, n + 1) == Windows(img, p, n) + [DecodeByte(img[p + 8 * n..p + 8 * n + 8])]
  {
  }

  /** The windows decoded one at a time are the run of bytes the bit codec
      decodes from the same carrier bytes. */
  lemma {:induction false} WindowsAsBytes(img: seq<byte>, p: nat, n: nat)
    requires p + 8 * n <= |img|
    ensures (8 * n) % 8 == 0
    ensures Windows(img, p, n) == DecodeBytes(img[p..p + 8 * n])
  {
    if n > 0 {
      WindowsAsBytes(img, p, n - 1);
      DecodeWindowStep(img, p, p + 8 * (n - 1));
    }
  }
}
