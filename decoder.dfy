/** Recovering a message hidden in the least-significant bits of a bitmap's
    pixel bytes: the check that a bitmap has a supported layout, and the
    decoder that packs each pixel byte's bit 0 into the message, eight pixel
    bytes per message byte, first pixel byte into bit 0. */
module Decoder {
  import opened ByteCodec
  import opened BmpConstants
  import opened BitmapReader

  /** A bitmap is decodable when its signature is "BM" and its DIB header is
      a core header with 1 plane and 24 bits per pixel, or an info header
      with 1 plane, 24 bits per pixel, no compression and no palette.
      (The function's doc comment in the source says any signature is
      accepted; the code rejects all but "BM".) */
  function IsDecodeable(fileHeader: FileHeader, dibHeader: DibHeader): (r: bool)
    ensures fileHeader.signature != BM ==> !r
    ensures dibHeader.NoHeader? ==> !r
    ensures dibHeader.CoreHeader? ==>
      (r <==> fileHeader.signature == BM && dibHeader.colorPlanes == 1 && dibHeader.bitsPerPixel == 24)
    ensures dibHeader.InfoHeader? ==>
      (r <==> && fileHeader.signature == BM
              && dibHeader.colorPlanes == 1 && dibHeader.bitsPerPixel == 24
              && dibHeader.compressionMethod == BI_RGB && dibHeader.colorPalette == 0)
  {
    if fileHeader.signature != BM then false
    else match dibHeader
      case CoreHeader(_, _, planes, bpp) =>
        planes == 1 && bpp == 24
      case InfoHeader(_, _, planes, bpp, compression, _, _, _, palette, _) =>
        planes == 1 && bpp == 24 && compression == BI_RGB && palette == 0
      case NoHeader =>
        false
  }

  /** `3 * width * height` pixel bytes, in `uint32_t` arithmetic. */
  function ByteCount(d: DibHeader): (r: u32)
    requires d.Supported()
    ensures r <= 3 * d.Width() * d.Height()
    ensures 3 * d.Width() * d.Height() < U32_MODULUS ==> r == 3 * d.Width() * d.Height()
    ensures (3 * d.Width() * d.Height() - r) % U32_MODULUS == 0
  {
    Wrap32(3 * d.Width() * d.Height())
  }

  /** The number of whole message bytes the pixel bytes hold. */
  function CharCount(d: DibHeader): (r: u32)
    requires d.Supported()
    ensures 8 * r <= ByteCount(d) < 8 * r + 8
  {
    ByteCount(d) / 8
  }

  /** Bit 0 of a pixel byte, as the C `pixel & 1`. */
  function Lsb(b: byte): (r: bv8)
    ensures r == 0 || r == 1
    ensures r == 0 <==> b % 2 == 0
  {
    if b % 2 == 0 then 0 else 1
  }

  /** Bit `j` of a message byte. */
  function BitOf(x: bv8, j: bv8): (b: bv8)
    requires j < 8
  {
    (x >> j) & 1
  }

  /** The accumulator after OR-ing in the low bits of the `n` pixel bytes
      from `start` on, the byte `s[start + j]` going to bit `j`. */
  function PackBits(s: seq<byte>, start: nat, n: bv8): (acc: bv8)
    requires n <= 8 && start + n as int <= |s|
    ensures n < 8 ==> acc >> n == 0
    decreases n as int
  {
    if n == 0 then 0 else PackBits(s, start, n - 1) | (Lsb(s[start + (n - 1) as int]) << (n - 1))
  }

  /** One more pixel byte OR-ed in at bit position `n`. */
  lemma PackBitsStep(s: seq<byte>, start: nat, n: bv8)
    requires n < 8 && start + n as int < |s|
    ensures PackBits(s, start, n + 1) == PackBits(s, start, n) | (Lsb(s[start + n as int]) << n)
  {
  }

  /** Message byte `k` is packed from pixel bytes `8k .. 8k+7`; the bytes past
      `8 * charCount` are never used. */
  function Message(pixels: seq<byte>, charCount: nat): (m: seq<bv8>)
    requires 8 * charCount <= |pixels|
    ensures |m| == charCount
  {
    seq(charCount, k requires 0 <= k < charCount => PackBits(pixels, 8 * k, 8))
  }

  /** The message one byte longer is the message followed by the next packed byte. */
  lemma MessageExtend(pixels: seq<byte>, n: nat)
    requires 8 * n + 8 <= |pixels|
    ensures Message(pixels, n + 1) == Message(pixels, n) + [PackBits(pixels, 8 * n, 8)]
  {
  }

  /** OR-ing a single bit in at position `m` changes bit `m` and no other. */
  lemma OrShiftBit(p: bv8, l: bv8, m: bv8, j: bv8)
    requires l == 0 || l == 1
    requires m < 8 && j < 8
    ensures BitOf(p | (l << m), j) == if j == m then BitOf(p, j) | l else BitOf(p, j)
  {
  }

  /** Bit `j` of the accumulator is bit 0 of pixel byte `start + j`; the bits
      not yet filled are 0. */
  lemma {:induction false} PackBitsBit(s: seq<byte>, start: nat, n: bv8, j: bv8)
    requires n <= 8 && start + n as int <= |s| && j < 8
    ensures BitOf(PackBits(s, start, n), j) == if j < n then Lsb(s[start + j as int]) else 0
    decreases n as int
  {
    if n != 0 {
      PackBitsBit(s, start, n - 1, j);
      OrShiftBit(PackBits(s, start, n - 1), Lsb(s[start + (n - 1) as int]), n - 1, j);
    }
  }

  /** Bit `j` of message byte `k` is bit 0 of pixel byte `8k + j`. */
  lemma MessageBit(pixels: seq<byte>, charCount: nat, k: nat, j: bv8)
    requires 8 * charCount <= |pixels|
    requires k < charCount && j < 8
    ensures BitOf(Message(pixels, charCount)[k], j) == Lsb(pixels[8 * k + j as int])
  {
    PackBitsBit(pixels, 8 * k, 8, j);
  }

  /** The accumulator depends on nothing but the low bits of its bytes. */
  lemma {:induction false} PackBitsLowBitsOnly(s: seq<byte>, t: seq<byte>, start: nat, n: bv8)
    requires n <= 8 && start + n as int <= |s| && start + n as int <= |t|
    requires forall i :: start <= i < start + n as int ==> s[i] % 2 == t[i] % 2
    ensures PackBits(s, start, n) == PackBits(t, start, n)
    decreases n as int
  {
    if n != 0 {
      PackBitsLowBitsOnly(s, t, start, n - 1);
    }
  }

  /** Changing bits 1..7 of any pixel byte, or any byte past `8 * charCount`,
      leaves the message unchanged. */
  lemma MessageLowBitsOnly(pixels: seq<byte>, other: seq<byte>, charCount: nat)
    requires 8 * charCount <= |pixels| && 8 * charCount <= |other|
    requires forall i :: 0 <= i < 8 * charCount ==> pixels[i] % 2 == other[i] % 2
    ensures Message(pixels, charCount) == Message(other, charCount)
  {
    forall k | 0 <= k < charCount
      ensures Message(pixels, charCount)[k] == Message(other, charCount)[k]
    {
      PackBitsLowBitsOnly(pixels, other, 8 * k, 8);
    }
  }

  /** Conversely, two groups of eight pixel bytes give the same message byte
      only if their low bits agree: no two hidden bytes collide. */
  lemma PackBitsDeterminesLowBits(s: seq<byte>, t: seq<byte>, i: bv8)
    requires |s| == |t| == 8 && i < 8
    requires PackBits(s, 0, 8) == PackBits(t, 0, 8)
    ensures s[i] % 2 == t[i] % 2
  {
    PackBitsBit(s, 0, 8, i);
    PackBitsBit(t, 0, 8, i);
  }

  /** Pixel bytes alternating 0x01, 0x00 hide the byte 0x55. */
  lemma AlternatingBitsGive55()
    ensures Message([1, 0, 1, 0, 1, 0, 1, 0], 1) == [0x55]
  {
    var pixels: seq<byte> := [1, 0, 1, 0, 1, 0, 1, 0];
    var m := Message(pixels, 1)[0];
    forall j: bv8 | j < 8
      ensures BitOf(m, j) == BitOf(0x55, j)
    {
      MessageBit(pixels, 1, 0, j);
    }
    SameBits(m, 0x55);
  }

  /** Pixel bytes whose low bits are all 0 hide only zero bytes. */
  lemma {:induction false} EvenPixelsGiveZeros(pixels: seq<byte>, charCount: nat)
    requires 8 * charCount <= |pixels|
    requires forall i :: 0 <= i < |pixels| ==> pixels[i] % 2 == 0
    ensures forall k :: 0 <= k < charCount ==> Message(pixels, charCount)[k] == 0
  {
    forall k | 0 <= k < charCount
      ensures Message(pixels, charCount)[k] == 0
    {
      forall j: bv8 | j < 8
        ensures BitOf(PackBits(pixels, 8 * k, 8), j) == BitOf(0, j)
      {
        PackBitsBit(pixels, 8 * k, 8, j);
      }
      SameBits(PackBits(pixels, 8 * k, 8), 0);
    }
  }

  /** A byte is determined by its eight bits. */
  lemma SameBits(x: bv8, y: bv8)
    requires forall j: bv8 :: j < 8 ==> BitOf(x, j) == BitOf(y, j)
    ensures x == y
  {
    assert BitOf(x, 0) == BitOf(y, 0) && BitOf(x, 1) == BitOf(y, 1);
    assert BitOf(x, 2) == BitOf(y, 2) && BitOf(x, 3) == BitOf(y, 3);
    assert BitOf(x, 4) == BitOf(y, 4) && BitOf(x, 5) == BitOf(y, 5);
    assert BitOf(x, 6) == BitOf(y, 6) && BitOf(x, 7) == BitOf(y, 7);
  }

  /** For a decodable bitmap whose pixel-array size does not wrap around, the
      decoder's reads, `8 * charCount` of them, all fall inside the array
      `ReadBitmapFile` allocated. */
  lemma {:induction false} DecoderReadsInBounds(fileHeader: FileHeader, d: DibHeader)
    requires IsDecodeable(fileHeader, d) && SizeDefined(d) && SizeExact(d)
    ensures 8 * CharCount(d) <= PixelArraySize(d).value
  {
    PixelArrayHoldsPixelBytes(d);
  }

  /** Without `SizeExact` the bound fails for a real input: a decodable
      24-bit info header 0x0AAAAAAB pixels wide and 1 high. `24 * width`
      wraps to 8 in `uint32_t`, so the reader allocates 4 bytes, while
      `3 * width * height` does not wrap and the decoder reads 0x20000000. */
  lemma WrappedRowSizeOverreads()
    ensures var d := InfoHeader(0x0AAA_AAAB, 1, 1, 24, BI_RGB, 0, 0, 0, 0, 0);
      && IsDecodeable(FileHeader(BM, 0, 0, 0, 0), d)
      && SizeDefined(d) && !SizeExact(d)
      && PixelArraySize(d) == Some(4)
      && CharCount(d) == 0x0400_0000
      && 8 * CharCount(d) > PixelArraySize(d).value
  {
  }

  /** Decodes the hidden message: a buffer of `charCount + 1` bytes whose last
      byte is the terminating 0, or `None` (NULL) when the DIB header is of an
      unsupported type. The decodability check is the caller's business; the
      decoder needs only that its reads stay inside the pixel array. Row
      padding is not skipped. */
  method DecodeMessage(bitmap: Bitmap) returns (message: Option<array<bv8>>)
    requires bitmap.dibHeader.Supported() ==> 8 * CharCount(bitmap.dibHeader) <= bitmap.pixelArray.Length
    ensures message.Some? <==> bitmap.dibHeader.Supported()
    ensures message.Some? ==>
      && fresh(message.value)
      && var str, charCount := message.value, CharCount(bitmap.dibHeader);
         && str.Length == charCount + 1
         && str[charCount] == 0
         && str[..charCount] == Message(bitmap.pixelArray[..], charCount)
  {
    if !bitmap.dibHeader.Supported() {
      return None;
    }
    var byteCount := ByteCount(bitmap.dibHeader);
    var charCount := CharCount(bitmap.dibHeader);
    var str := new bv8[charCount + 1];
    str[charCount] := 0;

    var pixelArray := bitmap.pixelArray;
    ghost var pixels := pixelArray[..];
    var tempChar: bv8 := 0;
    var cCounter: nat := 0;
    var bit: bv8 := 0;
    var bCounter: nat := 0;
    while bCounter < byteCount && cCounter < charCount
      invariant cCounter <= charCount && bit < 8
      invariant bCounter == 8 * cCounter + bit as int
      invariant cCounter == charCount ==> bit == 0
      invariant tempChar == PackBits(pixels, 8 * cCounter, bit)
      invariant str[..cCounter] == Message(pixels, cCounter)
      invariant str[charCount] == 0
      invariant pixelArray[..] == pixels
    {
      PackBitsStep(pixels, 8 * cCounter, bit);
      tempChar := tempChar | (Lsb(pixelArray[bCounter]) << bit);
      bit := bit + 1;
      if bit > 7 {
        assert bit == 8;
        MessageExtend(pixels, cCounter);
        str[cCounter] := tempChar;
        cCounter := cCounter + 1;
        bit := 0;
        tempChar := 0;
      }
      bCounter := bCounter + 1;
    }
    return Some(str);
  }
}
