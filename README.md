# LSB steganography codec in Dafny

This project models the encoder and decoder of a small C program. The
program hides a secret file in the least significant bits of a 24-bit BMP
image, and the project proves properties of that model.

The encoder (`code/encode.c`) does the following:
- It copies the 54-byte header of the carrier image.
- It writes a frame: the magic marker, the extension's length, the
  extension, the secret's length and the secret's bytes.
  - Each frame byte goes most significant bit first into the least
    significant bits of eight carrier bytes.
  - Each length is an int written as four little-endian bytes.
- It then copies the rest of the carrier unchanged.
- Before writing anything it checks capacity: the frame plus the header
  must fit in `width * height * 3`, computed in 32-bit `uint` arithmetic.

The decoder (`code/decode.c`) does the following:
- It skips the header and reads the frame back in the same order.
- It stops at the first failure: a truncated image, a marker that does not
  match, or an extension length of 10 or more. A negative length passes
  that test (see Findings).
- It writes the secret to a file named after the output base name followed
  by the extension, cut to 255 characters.

## Layout

- `bitcodec.dfy` (`BitCodec`): the byte codec on values.
  - `EmbedByte` and `DecodeByte` handle one byte; `EmbedBytes` and
    `DecodeBytes` handle runs of bytes.
  - Proved: round trips, most-significant-bit-first order, and bit
    isolation.
- `intcodec.dfy` (`IntCodec`): 32-bit values as four little-endian bytes.
  - C's 32-bit `int` and `uint` are written out as arithmetic modulo 2^32;
    `ToInt32` gives the two's-complement reading.
- `frame.dfy` (`Frame`): the frame layout, C strings (`CStr` stops at the
  first NUL), and the header size.
- `streams.dfy` (`Streams`): `FILE*` as classes.
  - A read stream is its bytes plus a position; `fread`, `fgetc` and
    `fseek` move the position.
  - A write stream is the sequence written so far; `fwrite` appends.
- `encode.dfy` (`Encode`): the encoder.
  - The C helpers that change a stack buffer in place become methods on
    arrays.
  - The field encoders move the carrier's read position and append to the
    stego stream.
  - Class `Encoder` mirrors `EncodeInfo`. `DoEncoding` is proved against
    the value `StegoImage`.
- `decode.dfy` (`Decode`): the decoder.
  - Class `Decoder` mirrors `DecodeInfo`. `extn` is an array of 10 bytes,
    and `extnSize` and `secretSize` are fields the methods set.
  - `DoDecoding` is proved against `DecodeImage`, which states what a whole
    decoding yields.
  - `DecodeImage` is split into one function per stage, and the stage
    lemmas step from one to the next.
- `roundtrip.dfy` (`RoundTrip`): the whole system. It proves that decoding
  what the encoder wrote gives back the secret.

The C `char` and `unsigned char` values are bytes `0..255`. The secret is a
given byte sequence; its size is the sequence's length. `MAGIC_STRING` is
defined in `code/common.h`, which is not part of this model. The marker is
therefore a parameter. `ValidMagic` says it is non-empty, holds no NUL, and
has at most 15 bytes, so that it fits `decoded[16]`.

Some behaviours of the code are easy to miss; the model keeps them:
- The encoder writes the secret's length as the `uint` of its size, which
  keeps only the low 32 bits. A secret of 2^32 bytes or more therefore has
  its length written modulo 2^32.
- The decoder reads both length fields as a signed `int`. A secret whose
  length has low 32 bits of 2^31 or more reads as negative. The decoder then
  writes no bytes and reports success.
- When the image ends inside the secret, the bytes decoded so far stay in
  the output file. This is the `Cut` outcome.
- The capacity sum wraps in `uint` arithmetic (`Encode.CapacityWraps`).
  When it wraps, the check can pass for an image that is far too small.
  Encoding then fails later, after part of the stego image is written.

## Model

| member | source | states |
|---|---|---|
| BitCodec.WithLsb | code/encode.c:157 | `(c & 0xFE) \| b` has least significant bit b and keeps the other seven bits of c |
| BitCodec.EmbedByte | code/encode.c:151-160 | defines the eight carrier bytes after encode_byte_to_lsb wrote x into them; `EmbedByteMsbFirst` and `EmbedByteIsolation` characterise it and `DecodeEmbedByte` inverts it |
| BitCodec.EmbedByteMsbFirst | code/encode.c:151-160 | after embedding x into a window, the LSB of carrier byte i is bit 7-i of x, for i in 0..7 |
| BitCodec.EmbedByteIsolation | code/encode.c:157 | embedding changes no bit above the LSB of any of the eight carrier bytes |
| BitCodec.Accumulate | code/decode.c:46-50 | defines the `unsigned char` that `result = (result << 1) \| (img_byte & 1)` builds, modulo 256 at each step; `AccumulateBound` proves no step loses a bit |
| BitCodec.DecodeByte | code/decode.c:42-53 | defines the byte one window of eight carrier bytes carries; `DecodeByteBits` gives its bits and `DecodeEmbedByte` makes it the inverse of `EmbedByte` |
| BitCodec.DecodeByteBits | code/decode.c:42-53 | bit 7-i of the decoded byte is the LSB of the i-th byte read |
| BitCodec.AccumulateBound | code/decode.c:49 | the shifted-in value after k reads fits in k bits, and each step is 2·previous + LSB, so the `unsigned char` result loses no bit in eight steps |
| BitCodec.DecodeEmbedByte | code/decode.c:46-51 | decoding a window written by encode_byte_to_lsb gives back x, whatever the carrier held |
| BitCodec.EmbedBytes | code/encode.c:179-190 | defines the carrier run after a run of bytes is embedded window by window; it keeps the carrier run's length, and `EmbedBytesAt`, `EmbedBytesIsolation` and `EmbedBytesAppend` characterise it |
| BitCodec.EmbedBytesAt | code/encode.c:183-189 | carrier byte j of a run gets the LSB bit 7 - j%8 of data byte j/8 and keeps its other bits |
| BitCodec.EmbedBytesIsolation | code/encode.c:183-189 | embedding a run changes no bit above any carrier byte's LSB |
| BitCodec.EmbedBytesAppend | code/encode.c:183-189 | embedding a + b is embedding a in the first 8·\|a\| carrier bytes, then b in the rest |
| BitCodec.EmbedBytesConcat | code/encode.c:183-189 | embedding concatenated data into concatenated carriers is the concatenation of the two embeddings |
| BitCodec.DecodeBytes | code/decode.c:117-126 | defines the bytes successive windows carry, one per eight carrier bytes; `DecodeEmbedBytes` makes it the inverse of `EmbedBytes` |
| BitCodec.DecodeBytesAppend | code/decode.c:118-126 | decoding two runs of whole windows is decoding each and concatenating |
| BitCodec.DecodeEmbedBytes | code/decode.c:118-126 | decoding the windows of an embedded run gives back the run (the codec's round trip) |
| IntCodec.ByteOf | code/encode.c:167 | defines `(data >> 8k) & 0xFF`, rounding toward minus infinity like an arithmetic shift; `DigitsOf` shows it recovers the base-256 digits |
| IntCodec.LittleEndian | code/encode.c:163-176 | defines the four bytes of an int in the order encode_int_to_lsb writes them; `AssembleLittleEndian` and `LittleEndianAssemble` show it inverts little-endian assembly modulo 2^32 |
| IntCodec.Assemble | code/decode.c:76-80 | the value or-ed together from k bytes is below 2^(8k) |
| IntCodec.AssembleFour | code/decode.c:76-80 | four bytes assemble to b0 + 2^8·b1 + 2^16·b2 + 2^24·b3 |
| IntCodec.Digits | code/encode.c:165-167 | the low 32 bits of n are the sum of its four base-256 digits |
| IntCodec.AssembleLittleEndian | code/decode.c:76-80 | reassembling the four bytes encode_int_to_lsb takes from v gives v modulo 2^32 |
| IntCodec.DigitsOf | code/encode.c:167 | the bytes `(n >> 8k) & 0xFF` of a sum of digits are those digits |
| IntCodec.LittleEndianAssemble | code/encode.c:165-167 | the other direction: splitting an assembled value gives back its four bytes |
| IntCodec.LittleEndianWrap | code/encode.c:167 | a negative int and the uint with the same bit pattern are split into the same four bytes |
| IntCodec.ToInt32 | code/decode.c:81 | the int read from a 32-bit pattern is in int range, has that pattern modulo 2^32, and is negative exactly when the top bit is set |
| IntCodec.LittleEndianToInt32 | code/encode.c:228 | the cast `(int)file_size` keeps the four bytes written |
| IntCodec.DecodeEmbedInt | code/decode.c:76-80 | decoding the 32 carrier bytes written for v and assembling them gives v modulo 2^32 |
| Frame.CStrPrefix | code/decode.c:66 | the C string in a buffer is its longest NUL-free prefix: followed by a NUL, or the whole buffer |
| Frame.CStrNoNul | code/decode.c:112 | a NUL-free sequence is its own C string |
| Frame.Payload | code/encode.c:41-74 | the frame is 4 + 4 bytes longer than marker, extension and secret together |
| Encode.LastDot | code/encode.c:271 | `strrchr(name, '.')`: the index of a dot with no dot after it, or none when the name has no dot |
| Encode.SecretExtension | code/encode.c:271-281 | the stored extension is 1 to 4 characters long, starts with '.', and holds no NUL |
| Encode.SecretExtensionFromLastDot | code/encode.c:271-276 | with a dot, the extension is the name from its last dot, cut to 4 characters |
| Encode.SecretExtensionNoDot | code/encode.c:277-281 | without a dot, the extension is ".txt" |
| Encode.HeaderField | code/encode.c:84-86 | defines the `uint` that `fread(&x, 4, 1, f)` leaves from offset off, missing high bytes zero; `HeaderFieldOf` shows a field holding v reads as v |
| Encode.ImageCapacity | code/encode.c:81-88 | defines width·height·3 in `uint` arithmetic; `ImageCapacityOfHeader` states it for given width and height |
| Encode.HeaderFieldOf | code/encode.c:84-86 | a header field holding the little-endian bytes of v reads as v |
| Encode.ImageCapacityOfHeader | code/encode.c:81-88 | capacity is width·height·3 modulo 2^32, with width and height the fields at offsets 18 and 22 |
| Encode.RequiredBytes | code/encode.c:122 | defines `total_required` in `uint` arithmetic; `CapacityExact` and `CapacityWraps` show when it is the true size and when it wraps |
| Encode.CapacityOk | code/encode.c:122-125 | defines the test of check_capacity; `CapacityExact` states it without overflow and `CapacityWraps` shows it passing wrongly with overflow |
| Encode.CapacityExact | code/encode.c:122-125 | without overflow, the check passes exactly when (magic + 4 + extension + 4 + secret)·8 + 54 ≤ width·height·3, equality included |
| Encode.CapacityWraps | code/encode.c:122 | with overflow, a 2-byte marker, a 4-byte extension and a secret of 2^29 - 14 bytes need just 54 bytes |
| Encode.EncodeSucceeds | code/encode.c:16-78 | defines when do_encoding succeeds: the capacity check passes and the carrier holds the header and one window per frame byte; `Encode.Encoder.DoEncoding` succeeds exactly when it holds, and `RoundTrip.EncodeThenDecode` assumes it |
| Encode.StegoImage | code/encode.c:16-78 | defines the image a successful encoding writes; `StegoImageLayout` and `StegoImageFields` characterise it, `Encode.Encoder.DoEncoding` is proved to write it, and `RoundTrip.DecodeStegoImage` decodes it |
| Encode.StegoImageLayout | code/encode.c:16-78 | the stego image is as long as the carrier, and keeps its header, its tail after the frame, and every bit above each LSB |
| Encode.EmbedFive | code/encode.c:41-74 | five consecutive fields embed into five consecutive carrier runs one by one |
| Encode.EmbedPayload | code/encode.c:41-74 | embedding the frame is embedding the marker, the extension length, the extension, the secret length and the secret, one after the other |
| Encode.FrameWindows | code/encode.c:41-74 | the same, with each field's carrier run given by its position in the image |
| Encode.StegoImageFields | code/encode.c:34-74 | the stego image is the header, the five embedded fields at their positions, and the tail |
| Encode.EncodeByteToLsb | code/encode.c:151-160 | `buf[0..8]` becomes the byte embedded into its old contents; `buf[8..]` is untouched |
| Encode.EncodeIntToLsb | code/encode.c:163-176 | `buf[0..32]` becomes the four little-endian bytes of data embedded in order; `buf[32..]` is untouched |
| Encode.CopyBmpHeader | code/encode.c:141-148 | succeeds exactly when the carrier has 54 bytes, and then appends those 54 bytes |
| Encode.EncodeWindow | code/encode.c:185-187 | succeeds exactly when 8 carrier bytes remain, and then appends them with x embedded |
| Encode.EncodeDataToImage | code/encode.c:179-190 | succeeds exactly when 8n carrier bytes remain. Then it consumes and appends exactly 8n bytes with the data embedded. Otherwise the whole windows that fit are written |
| Encode.EncodeIntToImage | code/encode.c:200-207 | succeeds exactly when 32 carrier bytes remain, and then appends them with the int's four bytes embedded |
| Encode.CopyRemainingImgData | code/encode.c:251-260 | appends every carrier byte from the read position to the end |
| Encode.Encoder.constructor | code/encode.c:270-281 | the encoder's extension is the one extracted from the secret's name; like the decoder, it takes a marker that is non-empty, NUL-free and at most 15 bytes |
| Encode.Encoder.GetImageSizeForBmp | code/encode.c:81-88 | reads the width and height fields at offsets 18 and 22, returns `ImageCapacity` (width·height·3 modulo 2^32), and leaves the position after the height field |
| Encode.Encoder.CheckCapacity | code/encode.c:106-127 | stores the image capacity, and succeeds exactly when the frame's wrapped size is within it |
| Encode.Encoder.EncodeMagicString | code/encode.c:193-197 | the marker, embedded after the read position, when room remains |
| Encode.Encoder.EncodeSecretFileExtnSize | code/encode.c:200-207 | the extension's length, embedded little-endian, when 32 bytes remain |
| Encode.Encoder.EncodeSecretFileExtn | code/encode.c:210-221 | the extension, byte by byte, when room remains |
| Encode.Encoder.EncodeSecretFileSize | code/encode.c:224-231 | the secret's length modulo 2^32, embedded little-endian, when 32 bytes remain |
| Encode.Encoder.EncodeSecretFileData | code/encode.c:234-248 | the remaining secret bytes embedded, then the rest of the carrier, when the carrier holds them |
| Encode.Encoder.EncodeMarker | code/encode.c:41-60 | the marker, the extension's length and the extension, in that order |
| Encode.Encoder.EncodeSecret | code/encode.c:62-74 | the secret's length, the secret and the carrier's tail, in that order |
| Encode.Encoder.EncodeFrame | code/encode.c:41-74 | the five fields at their positions, then the tail |
| Encode.Encoder.DoEncoding | code/encode.c:16-78 | succeeds exactly when the check passes and the carrier holds the frame, and then writes `StegoImage`. When the check fails, nothing is written |
| Decode.DecodeInt | code/decode.c:76-81 | a length field reads as a value in the range of a C int |
| Decode.Windows | code/decode.c:117-126 | defines the bytes the decoder reads from n windows starting at p; it returns n of them, and `WindowsAsBytes` shows it is `DecodeBytes` of those carrier bytes |
| Decode.WholeWindows | code/decode.c:118-124 | k whole windows fit in m bytes, and a (k+1)-th does not |
| Decode.OutputName | code/decode.c:112 | defines the file name `snprintf(name, 256, "%s%s", ...)` builds; `OutputNameFormat` characterises it |
| Decode.SecretCount | code/decode.c:118 | defines how many bytes the loop of decode_secret_data writes for a declared size: none for a negative one; `Decode.DecodeDataFromLsb` writes that many |
| Decode.OutputNameFormat | code/decode.c:111-112 | the output name is a prefix of base name + extension, exactly min(their total length, 255) bytes long, and equals it exactly when that is under 256 bytes |
| Decode.MagicCheck | code/decode.c:65-66 | the strcmp on the NUL-terminated buffer succeeds exactly when the decoded bytes are the marker |
| Decode.CStrTerminated | code/decode.c:65 | writing a NUL after the decoded bytes does not change the string they hold |
| Decode.CStrAtTerminator | code/decode.c:92 | a NUL at `extn[k]` ends the extension's string within its first k bytes |
| Decode.ExtnSizeAcceptedAsWritten | code/decode.c:82 | defines the check as written, which refuses only sizes of 10 or more; `ExtnSizeAsWrittenAdmitsNegative` shows it admits -2^31 |
| Decode.ExtnSizeAccepted | code/decode.c:82 | defines the corrected check, sizes 0..9; `Decode.Decoder.DecodeSecretExtnSize` stores a size it accepts only when `0 <= extnSize < extn.Length` |
| Decode.ExtnSizeAsWrittenAdmitsNegative | code/decode.c:79-82 | the field bytes 00 00 00 80 read as -2^31, which the check as written accepts and the corrected check refuses |
| Decode.ExtnSizeFieldAsWritten | code/decode.c:76-82 | an image whose extension-length windows decode to 00 00 00 80 gets past the check as written |
| Decode.DecodeByteFromLsb | code/decode.c:42-53 | succeeds exactly when 8 bytes remain, consumes them, and returns their decoded byte. Otherwise the stream is at its end |
| Decode.DecodeIntFromLsb | code/decode.c:72-81 | succeeds exactly when 32 bytes remain; the value is the four decoded bytes assembled little-endian and read as an int |
| Decode.DecodeDataFromLsb | code/decode.c:117-126 | writes one decoded byte per window, max(size, 0) of them, and succeeds exactly when the stream holds them, leaving the position just after them. Otherwise it writes the whole windows left |
| Decode.Decoder.constructor | code/decode.c:29-34 | the decoder reads the stego image from its first byte, with a 10-byte extension buffer |
| Decode.Decoder.SkipBmpHeader | code/decode.c:36-39 | the read position moves to byte 54, or to the end of a shorter image |
| Decode.Decoder.DecodeMagicString | code/decode.c:56-69 | succeeds exactly when the image holds the marker's windows and they decode to the marker |
| Decode.Decoder.DecodeSecretExtnSize | code/decode.c:72-84 | stores the decoded length, and succeeds exactly when it is read in full and is in 0..9, so that it fits `extn` |
| Decode.Decoder.DecodeSecretExtn | code/decode.c:86-94 | `extn[0..size]` holds the decoded extension and `extn[size]` is NUL, when the image holds it; the bytes after `extn[size]` are untouched |
| Decode.Decoder.DecodeSecretFileSize | code/decode.c:96-107 | stores the decoded secret length, when 32 bytes remain |
| Decode.Decoder.DecodeSecretData | code/decode.c:109-130 | names the output base name + extension string, writes the decoded secret to a new file, and succeeds exactly when it is complete. The extension and secret lengths it was given stay as they were |
| Decode.Decoder.DoDecoding | code/decode.c:133-195 | succeeds exactly when `DecodeImage` decodes. The output file's name and contents are `DecodeImage`'s, for a whole or a truncated secret. On success the stream stops just after the secret, at 54 + 8·(marker + 4 + extension + 4 + secret), so the rest of the image is never read |
| Decode.Decoder.DecodeFrame | code/decode.c:158-188 | the steps after the marker give `DecodeExtension`'s outcome, and on success stop just after the secret |
| Decode.Decoder.DecodeNamedFrame | code/decode.c:166-188 | the steps after the extension's length give `DecodeNamed`'s outcome, and on success stop just after the secret |
| Decode.DecodeImage | code/decode.c:133-195 | defines the outcome of a whole decoding: header skipped, marker read and compared, then `DecodeExtension`; `Decode.Decoder.DoDecoding` is proved to reach it and `RoundTrip.DecodeStegoImage` evaluates it on a stego image |
| Decode.DecodeExtension | code/decode.c:158-164 | defines the outcome from the extension's length on: read, checked with `ExtnSizeAccepted`, then `DecodeNamed`; `Decode.Decoder.DecodeFrame` reaches it |
| Decode.DecodeNamed | code/decode.c:166-182 | defines the outcome from the extension on: extension and secret length read, name formed, then `DecodeSecret`; `Decode.Decoder.DecodeNamedFrame` reaches it and `NamedStep` names it |
| Decode.DecodeSecret | code/decode.c:109-130 | defines the secret's outcome, always a created file with the given name: `Decoded` when the image holds all `SecretCount(size)` bytes, otherwise `Cut` with the whole windows left |
| Decode.NamedStep | code/decode.c:166-182 | once the extension and the secret's length are read, the output name comes from the buffer's string |
| Decode.WindowsAsBytes | code/decode.c:118-126 | the decoder's window-by-window bytes are the decoding of the run of carrier bytes |
| RoundTrip.StegoImageWindows | code/encode.c:41-74 | in the stego image, each field's windows hold that field embedded into the carrier bytes at its position |
| RoundTrip.FieldDecodes | code/decode.c:61-64 | a field's windows decode to the field the encoder embedded there |
| RoundTrip.IntFieldDecodes | code/decode.c:76-80 | a length field decodes to the length the encoder embedded there, when it is below 2^31 |
| RoundTrip.DecodeStegoImage | code/decode.c:133-195 | decoding the stego image with the same marker yields the secret itself, under the output name + extension |
| RoundTrip.DecodeNamedFields | code/decode.c:166-188 | the extension, the secret's length and the secret written by the encoder decode back |
| RoundTrip.EncodeThenDecode | code/encode.c:16-78 | whenever the encoder succeeds, the decoder reads back the secret and the extension taken from the secret's name |
| RoundTrip.WrongMagicRejected | code/decode.c:66-68 | an image encoded with one marker and decoded with a different one of the same length fails at the marker |

## Left out

- Opening and closing files, `perror`, `printf`, and the failure of `fopen` (code/encode.c:91-103, code/decode.c:29-34, code/decode.c:114-115). These are operating-system I/O. Streams are in-memory byte sequences.
- `get_file_size` (code/encode.c:130-138) uses `ftell` and `fseek`. The secret is a given byte sequence, and its size is the sequence's length.
- Write failures. `fwrite` into an `OutStream` always succeeds, so the encoder's `fwrite` checks never fail, and the decoder's unchecked `fwrite` (code/decode.c:125) always writes.
- Argument handling: `main`, `check_operation_type`, `read_and_validate_decode_args`, and the `.bmp` checks of `read_and_validate_encode_args`. This is command-line glue. Only the extension extraction (code/encode.c:271-281) is modelled.
- BMP validation: none exists in the source. Only the width and height fields at offsets 18 and 22 are read.
- `MAGIC_STRING`: code/common.h is not part of this model, so the marker is a parameter.
- A width or height read from a file shorter than 26 bytes is built from the bytes present, with the missing high bytes zero. This is the usual outcome of a short `fread` into a zeroed `uint`. It does not matter in practice, because the header copy then fails.
- `fseek` past the end of the file succeeds in C and leaves nothing to read. `Streams.InStream.Seek` stops at the end instead, which reads the same.
- Encode.Encoder.DoEncoding: states the stego stream on success, and states that it is empty when the capacity check fails. When a later step fails, the stream keeps what was written so far; the contract does not describe that partial content.
- Decode.Decoder.DoDecoding: on a failed decoding, the contract says nothing about `secretFile`. The C decoder creates no file in that case, except through a truncated secret, which the `Cut` outcome covers.
- Decode.Decoder.DoDecoding: the check on the extension's length is the corrected one (see Findings), so a negative length is refused instead of reaching `extn[size] = '\0'` out of bounds.
- RoundTrip.DecodeStegoImage: needs a secret shorter than 2^31 bytes. For a longer secret, the length field holds the size modulo 2^32. When those low 32 bits are 2^31 or more, the field reads back as a negative int and the decoder writes no bytes. Otherwise the decoder writes the size modulo 2^32 bytes, not the whole secret.
- `((unsigned char)ch) << 24` (code/decode.c:79, code/decode.c:103) overflows `int` when the byte is 0x80 or more. ISO C leaves that undefined. `IntCodec.ToInt32` and `Decode.DecodeInt` take the two's-complement result that GCC and Clang give. The input in Findings relies on that reading.
- `Decode.Decoder.DoDecoding` is split into `DecodeFrame` and `DecodeNamedFrame`, and the data loop of `decode_secret_data` is the helper `DecodeDataFromLsb`. Both `decode_secret_extn_size` and `decode_secret_file_size` use `DecodeIntFromLsb` for their shared loop. This keeps each proof small; the steps and their order are those of the source.
- `secretName` is a field of `Decoder` that exposes the name `decode_secret_data` formats on its stack.

## Findings

| source | as written | input that shows it | evidently intended | confidence | as-written member | corrected member |
|---|---|---|---|---|---|---|
| code/decode.c:82 | `extn_size >= sizeof extn` refuses only sizes of 10 or more. A negative size passes, and code/decode.c:92 then writes `extn[extn_size] = '\0'` outside the buffer | extension-length windows that decode to the bytes 00 00 00 80, which read as the int -2^31 | refuse every size outside 0..9 | not executed | Decode.ExtnSizeAsWrittenAdmitsNegative | Decode.Decoder.DecodeSecretExtnSize |
