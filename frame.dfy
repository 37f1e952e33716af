/** What the encoder and the decoder agree on: the fixed 54-byte header of the
    carrier, the magic marker, C strings, and the order of the fields of the
    hidden frame. */
module Frame {
  import opened BitCodec
  import opened IntCodec

  datatype Option<T> = None | Some(value: T)

  /** The 14-byte BMP file header and the 40-byte BITMAPINFOHEADER, copied
      verbatim by the encoder and skipped by the decoder. */
  const HEADER_SIZE: nat := 54

  function Min(a: nat, b: nat): nat
  {
    if a <= b then a else b
  }

  /** No NUL byte: the bytes of a C string up to its terminator. */
  predicate NoNul(s: seq<byte>)
  {
    forall i :: 0 <= i < |s| ==> s[i] != 0
  }

  /** The C string held by a byte buffer: everything before its first NUL. */
  function CStr(s: seq<byte>): seq<byte>
  {
    if s == [] || s[0] == 0 then [] else [s[0]] + CStr(s[1..])
  }

  /** What strlen and strcmp see: the C string is a NUL-free prefix of the
      buffer, ended by the buffer's first NUL or by its end. */
  lemma {:induction false} CStrPrefix(s: seq<byte>)
    ensures var r := CStr(s);
            NoNul(r) && |r| <= |s| && r == s[..|r|] && (|r| < |s| ==> s[|r|] == 0)
  {
    if s != [] && s[0] != 0 {
      CStrPrefix(s[1..]);
      assert s == [s[0]] + s[1..];
    }
  }

  /** A buffer without NUL bytes is its own C string. */
  lemma {:induction false} CStrNoNul(s: seq<byte>)
    requires NoNul(s)
    ensures CStr(s) == s
  {
    if s != [] {
      CStrNoNul(s[1..]);
    }
  }

  /** MAGIC_STRING: a NUL-free string short enough for the decoder's 16-byte
      buffer, terminator included. */
  predicate ValidMagic(m: seq<byte>)
  {
    0 < |m| <= 15 && NoNul(m)
  }

  /** The hidden frame, byte by byte: magic marker, extension length (4 bytes,
      little-endian), extension, secret length (4 bytes, little-endian),
      secret. The secret's length travels as the uint the encoder computes
      for it, that is, modulo 2^32. */
  function Payload(magic: seq<byte>, extn: seq<byte>, secret: seq<byte>): (p: seq<byte>)
    ensures |p| == |magic| + 4 + |extn| + 4 + |secret|
  {
    magic + LittleEndian(|extn|) + extn + LittleEndian(|secret| % WORD) + secret
  }
}
