# BMP steganography decoder — a Dafny model

This project models the core of ImageSteganography, a small C program. It
recovers a text message hidden in the least-significant bits of a 24-bit
Windows bitmap. The core has two parts:

- **Reading the bitmap** (`src/bitmap.c`):
  - The 14-byte file header is parsed, together with a lookahead on the next
    four bytes that is meant to give the DIB header's size.
  - The DIB header is then read. Only BITMAPCOREHEADER (12 bytes) and
    BITMAPINFOHEADER (40 bytes) are parsed.
  - The row-padded pixel-array size is computed, and that many bytes are
    read from the file header's image offset.
- **Decoding** (`src/decoder.c`):
  - `isDecodeable` checks for a "BM" signature, 1 colour plane, 24 bits per
    pixel and, for an info header, no compression and no palette.
  - `decodeMessage` packs bit 0 of each pixel byte into the message,
    8 pixel bytes per message byte, with the first pixel byte going to bit 0.

The model is split into four modules:

- `ByteCodec` (`codec.dfy`):
  - the fixed-width integer types;
  - unsigned 32-bit wrap-around (`Wrap32`);
  - C's bitwise `|` on unsigned values (`BitOr`);
  - the little- and big-endian field decoders, each with an encoder as its
    inverse.
- `BmpConstants` (`bmpconstants.dfy`): the header sizes and constants of
  `src/bmpconstants.h`.
- `BitmapReader` (`bitmap.dfy`):
  - The parsers are pure functions that return the struct they fill in,
    paired with the C return code (`Parsed`).
  - The file is an in-memory image `seq<byte>`. A read of `n` bytes at
    position `p` is the slice `image[p..p+n]`, and a short read is a slice
    the image cannot supply.
  - `Bitmap` is a class with the three fields of `bitmap_t` that the reader
    updates: `fileHeader`, `dibHeader` and `pixelArray`.
  - `ReadBitmapFile` is its method. It updates those fields in place and
    allocates the pixel array.
- `Decoder` (`decoder.dfy`):
  - `IsDecodeable` is a function.
  - `DecodeMessage` is a method with the source's single loop over the
    pixel array. It writes into a freshly allocated array of `charCount + 1`
    bytes.
  - The loop is proved against the specification function `Message`.

The behaviour of the code is reproduced as written, including these points:

- **The size lookahead ORs without shifting.** The value returned by the
  file-header parser is bytes 14, 15, 16 and 17 OR-ed together with no
  shifts. `DibSizeLookahead` is that OR.
  - It equals the declared DIB size only when bytes 15..17 are zero, which
    is true of every standard size (all are below 256).
  - `LookaheadIsLittleEndianOnlyBelow256` states exactly when it agrees with
    a little-endian reading.
- **-1 passes the checks for 0.** The read functions return -1 (0xFFFFFFFF
  as `uint32_t`) on a short read or an unsupported size. `readBitmapFile`
  treats only 0 as an error.
  - So after a failed DIB read, the type switch sees the DIB struct as it
    was before the call.
  - `ReadBitmapFile` is therefore stated in terms of the prior value of
    `dibHeader`.
  - A freshly constructed `Bitmap` holds `NoHeader`, a struct no parser has
    filled in, so the switch rejects it (`FreshReadSucceeds`).
- **The terminator is appended.** `decodeMessage` does add a 0 byte after
  the message.
- **The signature check contradicts its comment.** `isDecodeable` rejects
  every signature other than "BM", although its doc comment says any
  signature is accepted. The model follows the code.
- **Row padding is ignored.** The decoder reads the first
  `8 * (3 * width * height / 8)` bytes of the pixel array as one run. It
  does not skip the padding at the end of each row.

Where the program's documentation and its code differ, the model follows
the code. An unsupported DIB size does not abort the read at once: it
returns -1, which the caller lets through.

C undefined behaviour is not modelled as behaviour. Each case becomes a
precondition:

- `ReadDefined` requires that:
  - the first 18-byte read succeeds;
  - the lookahead is not 1, 2 or 3 (a size below 4 makes the stack array
    of `size - 4` bytes wrap around to about 4 GiB);
  - the core-header size expression, which is evaluated in `int`, does not
    overflow (`SizeDefined`);
  - the pixel array lies inside the file.
- `DecodeMessage` requires that its `8 * charCount` reads fall inside the
  pixel array. `DecoderReadsInBounds` shows that this holds for every
  decodable bitmap whose size computation does not wrap around.
  - The precondition does exclude real inputs. `WrappedRowSizeOverreads`
    gives one: a decodable 24-bit info header 0x0AAAAAAB pixels wide and 1
    high. `24 * width` wraps to 8, so the reader allocates a 4-byte pixel
    array, but `3 * width * height` does not wrap and the decoder reads
    0x20000000 bytes from it. On such a file the program reads far past
    the end of its buffer; the model does not describe that run.

## Model

| member | source | states |
|---|---|---|
| ByteCodec.Wrap32 | src/bitmap.c:185-187 | a `uint32_t` result: unchanged below 2^32, and congruent to the exact value modulo 2^32 |
| ByteCodec.BitOr | src/bitmap.c:69 | the OR of two values is 0 exactly when both are 0, and OR with 0 leaves the other operand unchanged |
| ByteCodec.BitOrBound | src/bitmap.c:69 | the OR of two `k`-bit values is a `k`-bit value, so OR-ing bytes gives a byte |
| ByteCodec.BitOrLowBit | src/bitmap.c:69 | bit 0 of an OR is the OR of the operands' bit 0, and the higher bits are the OR of the higher bits |
| ByteCodec.LeU16 | src/bitmap.c:61-64 | a little-endian 16-bit field: its low byte is the first byte and its high byte the second (Le16RoundTrip and Le16Canonical make it the inverse of the encoder) |
| ByteCodec.BeU16 | src/bitmap.c:57-58 | the big-endian signature field: its high byte is the first byte and its low byte the second (Be16RoundTrip and Be16Canonical) |
| ByteCodec.LeU32 | src/bitmap.c:59-66 | a little-endian 32-bit field: its four base-256 digits, lowest first, are the four bytes in file order (Le32RoundTrip and Le32Canonical) |
| ByteCodec.Le16RoundTrip | src/bitmap.c:61-64 | a 16-bit value encoded little-endian decodes back to itself |
| ByteCodec.Le16Canonical | src/bitmap.c:61-64 | re-encoding a decoded little-endian 16-bit field gives back its two bytes |
| ByteCodec.Be16RoundTrip | src/bitmap.c:57-58 | a 16-bit value encoded big-endian (the signature's byte order) decodes back to itself |
| ByteCodec.Be16Canonical | src/bitmap.c:57-58 | re-encoding the decoded signature gives back its two bytes |
| ByteCodec.Le32RoundTrip | src/bitmap.c:59-66 | a 32-bit value encoded little-endian decodes back to itself |
| ByteCodec.Le32Canonical | src/bitmap.c:59-66 | re-encoding a decoded little-endian 32-bit field gives back its four bytes |
| BitmapReader.DibHeader.Type | src/bitmap.h:83-90 | the `type` tag of a parsed DIB struct is 12 exactly for the core variant, and 40 otherwise (the info variant) |
| BitmapReader.DibSizeLookahead | src/bitmap.c:69 | the lookahead is below 256; it is 0 exactly when bytes 14..17 are all 0; it equals byte 14 when bytes 15..17 are 0 |
| BitmapReader.ParseBMPFileHeader | src/bitmap.c:56-70 | the return code is the OR lookahead; the signature is "BM" exactly when bytes 0 and 1 are 0x42 and 0x4D |
| BitmapReader.FileHeaderRoundTrip | src/bitmap.c:56-69 | the parser inverts the on-disk layout: a big-endian signature, then little-endian size, two reserved fields and offset; a declared size below 256 comes back as the return code |
| BitmapReader.FileHeaderCanonical | src/bitmap.c:56-66 | the parsed file header re-encodes to exactly the 14 bytes it was read from, so no byte is ignored or misplaced |
| BitmapReader.LookaheadIsLittleEndianOnlyBelow256 | src/bitmap.c:69 | the lookahead equals a little-endian reading of bytes 14..17 if and only if bytes 15..17 are zero |
| BitmapReader.ParseBITMAPCOREHEADER | src/bitmap.c:79-88 | the result is a core header whose type is 12 |
| BitmapReader.CoreHeaderRoundTrip | src/bitmap.c:82-85 | width, height, planes and bits per pixel are little-endian 16-bit fields at bytes 0, 2, 4 and 6; encoding and parsing gives the header back |
| BitmapReader.CoreHeaderCanonical | src/bitmap.c:82-85 | the parsed core header re-encodes to exactly the 8 bytes it was read from |
| BitmapReader.ParseBITMAPINFOHEADER | src/bitmap.c:97-122 | the result is an info header whose type is 40 |
| BitmapReader.InfoHeaderRoundTrip | src/bitmap.c:100-119 | width and height are 32-bit at 0 and 4, planes and bpp are 16-bit at 8 and 10, and six 32-bit fields follow at 12..32, all little-endian; encoding and parsing gives the header back |
| BitmapReader.InfoHeaderCanonical | src/bitmap.c:100-119 | the parsed info header re-encodes to exactly the 36 bytes it was read from |
| BitmapReader.ParseDIBHeader | src/bitmap.c:134-152 | the code is 1 if and only if `length + 4` (mod 2^32) is 12 or 40, and the struct's type is then that key and the struct encodes back to exactly the parsed bytes; otherwise the code is -1 and the struct is unchanged |
| BitmapReader.NamedSizesUnsupported | src/bitmap.c:142-150 | the named but unimplemented sizes 16, 52, 56, 64, 108 and 124 all give -1 with the struct unchanged; the OS/2 1.x size 12 is parsed as a core header |
| BitmapReader.ReadBMPFileHeader | src/bitmap.c:19-27 | a read shorter than 18 bytes returns -1 and leaves the header unchanged; otherwise the result is the parse of the image's first 18 bytes: the header from bytes 0..13 and the lookahead as the code |
| BitmapReader.ReadDIBHeader | src/bitmap.c:38-46 | the code is 1 or -1, never 0; it is 1 if and only if the declared size is 12 or 40 and the file holds the remaining `size - 4` bytes; the type then equals the declared size and the struct encodes back to exactly the bytes `image[pos..pos + size - 4]`; on -1 the struct is unchanged |
| BitmapReader.DibAfterRead | src/bitmap.c:165-173 | the DIB struct after the two header reads: when the lookahead is 12 or 40 and the file holds the `size - 4` bytes after the size field, it is a parsed header of that type that encodes back to exactly `image[18..14+size]`; otherwise the -1 path leaves it as it was before the call |
| BitmapReader.PixelArraySize | src/bitmap.c:176-199 | a size exists if and only if the type is 12 or 40, and the size is always a multiple of 4 |
| BitmapReader.PixelArraySizeExact | src/bitmap.c:179-187 | without wrap-around the size is `((bpp * width + 31) / 32) * 4 * height` for the active variant |
| BitmapReader.PixelArrayHoldsPixelBytes | src/bitmap.c:184-187 | at 24 bits per pixel and without wrap-around, the padded array holds at least `3 * width * height` bytes |
| BitmapReader.Bitmap.constructor | src/bitmap.h:95-100 | a bitmap nothing was read into has a zero file header, no parsed DIB header and an empty pixel array |
| BitmapReader.Bitmap.ReadBitmapFile | src/bitmap.c:163-209 | the file header is parsed; the DIB struct is what the two reads leave, the prior value after a failed DIB read; the result is 1 if and only if the lookahead is nonzero and the struct's type is 12 or 40; on 1 a fresh pixel array holds exactly the computed number of bytes from the image offset on; on 0 the pixel array is not replaced |
| BitmapReader.FreshReadSucceeds | src/bitmap.c:165-177 | for a fresh bitmap, the DIB header is usable if and only if the declared size is 12 or 40 and the file holds the rest of that header |
| Decoder.IsDecodeable | src/decoder.c:18-51 | false for any signature other than "BM" and for any other type; for type 12, true if and only if planes is 1 and bpp is 24; for type 40, true if and only if in addition compression is BI_RGB and the palette is 0 |
| Decoder.ByteCount | src/decoder.c:71-80 | `3 * width * height` in `uint32_t`: congruent to the exact product modulo 2^32, never above it, and equal to it when the product is below 2^32 |
| Decoder.CharCount | src/decoder.c:74-81 | `byteCount / 8`: the number of whole message bytes; fewer than 8 pixel bytes are left over |
| Decoder.Lsb | src/decoder.c:103 | `pixel & 1` is 0 or 1, and 0 exactly when the pixel byte is even |
| Decoder.PackBits | src/decoder.c:99-104 | the accumulator `tempChar` after `n` pixel bytes: no bit at position `n` or above is set (PackBitsBit gives every bit below) |
| Decoder.Message | src/decoder.c:99-111 | the message has exactly `charCount` bytes, so no partial byte is emitted |
| Decoder.PackBitsBit | src/decoder.c:99-111 | after `n` steps, bit `j` of the accumulator is bit 0 of the `j`-th pixel byte for `j < n`, and 0 above |
| Decoder.MessageBit | src/decoder.c:99-111 | bit `j` of message byte `k` is bit 0 of pixel byte `8k + j` |
| Decoder.PackBitsLowBitsOnly | src/decoder.c:103 | a packed byte depends only on the low bits of its eight pixel bytes |
| Decoder.MessageLowBitsOnly | src/decoder.c:102-103 | changing bits 1..7 of any pixel byte, or any byte past `8 * charCount`, leaves the message unchanged |
| Decoder.PackBitsDeterminesLowBits | src/decoder.c:103 | two groups of eight pixel bytes pack to the same byte only if their low bits agree |
| Decoder.AlternatingBitsGive55 | src/decoder.c:103-106 | pixel bytes 0x01, 0x00, 0x01, ... hide the byte 0x55 |
| Decoder.EvenPixelsGiveZeros | src/decoder.c:103-106 | pixel bytes that are all even hide only zero bytes |
| Decoder.DecoderReadsInBounds | src/decoder.c:77-102 | for a decodable bitmap whose size does not wrap, the decoder's `8 * charCount` reads lie inside the array the reader allocated |
| Decoder.WrappedRowSizeOverreads | src/bitmap.c:185-187 | a 24-bit info header 0x0AAAAAAB pixels wide and 1 high passes `IsDecodeable` and `SizeDefined`, but `24 * width` wraps to 8, so its pixel array is 4 bytes while `charCount` is 0x04000000: the decoder's reads at src/decoder.c:103 would go past the array |
| Decoder.DecodeMessage | src/decoder.c:61-113 | returns a result (not NULL) if and only if the type is 12 or 40; the result is a fresh buffer of `charCount + 1` bytes whose last byte is 0 and whose first `charCount` bytes are `Message` of the pixel array |

## Left out

- `src/decode.c` (the program's `main`) is not part of this model. This
  covers opening and closing the files, printed diagnostics, exit codes and
  writing the message with `fputs`, which also stops at the message's first
  zero byte.
- The print functions of `src/bitmap.c` are left out. They only format
  output.
- The "not yet supported" messages that `parseDIBHeader` (src/bitmap.c:149)
  and `readBitmapFile`'s type switch (src/bitmap.c:197) print are not
  modelled. Only their return codes are.
- The stream (`FILE*`, `fread`, `fseek`) is replaced by an in-memory image.
  A read is a slice of it.
- The 18-byte file-header read may come up short. It then returns -1, and
  the real program goes on to size a stack array of about 4 GiB. This is
  excluded by `ReadDefined`.
- A lookahead of 1, 2 or 3 underflows `size - 4` in the same way. This is
  excluded by `ReadDefined`.
- Signed `int` overflow in the core-header size expression is undefined.
  It is excluded by `SizeDefined`.
- The info-header size is computed in `uint32_t`, and its wrap-around is
  modelled with `Wrap32`.
- The pixel read is not checked, and a short file would leave allocated
  bytes uninitialised. It is excluded by requiring the array to lie inside
  the image.
- The `malloc` calls are not checked. Allocation failure is not modelled.
- BitmapReader.Bitmap.ReadBitmapFile: after a failed DIB read, the type switch
  sees whatever the struct held. In a real program that struct may be
  uninitialised memory, which could happen to hold 12 or 40. The model gives
  it a definite prior value (`NoHeader` for a fresh bitmap) instead.
- The header-size field stored inside each variant is not kept separately.
  It always equals the `type` tag, which `DibHeader.Type` gives.
- The OS/2 2.x header struct, the unused `color_table` field, the signature
  constants other than "BM" and the compression constants other than
  BI_RGB are left out. They are declared but never used.
- Padding-aware decoding is left out. The source reads the pixel array as
  one run, and so does the model.
- Decoder.DecodeMessage: the loop counter `bCounter` is a `uint32_t`, but
  it is bounded by `byteCount` and so never wraps. It is modelled as a
  natural number.
- Message bytes are C `char`s and are modelled as unsigned 8-bit vectors.
