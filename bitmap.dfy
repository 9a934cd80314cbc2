/** Reading a Windows bitmap into memory: the 14-byte file header, the DIB
    header (BITMAPCOREHEADER or BITMAPINFOHEADER, chosen by its declared size)
    and the pixel array found at the file header's image offset.

    The file is an in-memory image (`seq<byte>`); a read of `n` bytes at the
    stream position `pos` is the slice `image[pos..pos + n]`, and a short read
    is `|image| - pos < n`. */
module BitmapReader {
  import opened ByteCodec
  import opened BmpConstants

  /** The value `-1` returned through a `uint32_t`. */
  const FAILURE: u32 := 0xFFFF_FFFF

  /** C's `INT_MAX`: the core-header pixel-array size is computed in `int`. */
  const INT_MAX: nat := 0x7FFF_FFFF

  /** Stream position of the DIB header bytes that follow the size lookahead. */
  const DIB_BODY_OFFSET: nat := BMP_FILE_HEADER_SIZE + 4

  datatype FileHeader = FileHeader(signature: u16, fileSize: u32, rsv0: u16, rsv1: u16, imgOffset: u32)

  /** The DIB header struct: its `type` tag together with the union member it
      selects. `NoHeader` is a struct whose `type` is neither 12 nor 40: one that
      no parser has filled in. */
  datatype DibHeader =
    | CoreHeader(coreWidth: u16, coreHeight: u16, colorPlanes: u16, bitsPerPixel: u16)
    | InfoHeader(infoWidth: u32, infoHeight: u32, colorPlanes: u16, bitsPerPixel: u16,
                 compressionMethod: u32, imageSize: u32, horizontalRes: u32,
                 verticalRes: u32, colorPalette: u32, importantColors: u32)
    | NoHeader
  {
    predicate Supported() {
      CoreHeader? || InfoHeader?
    }

    /** The `type` tag, which equals the `header_size` field of both variants. */
    function Type(): (t: nat)
      requires Supported()
      ensures t == BITMAPCOREHEADER || t == BITMAPINFOHEADER
      ensures CoreHeader? <==> t == BITMAPCOREHEADER
    {
      if CoreHeader? then BITMAPCOREHEADER else BITMAPINFOHEADER
    }

    function Width(): (w: u32)
      requires Supported()
    {
      if CoreHeader? then coreWidth else infoWidth
    }

    function Height(): (h: u32)
      requires Supported()
    {
      if CoreHeader? then coreHeight else infoHeight
    }
  }

  /** A parser's `uint32_t` return code together with the struct it leaves behind. */
  datatype Parsed<T> = Parsed(code: u32, value: T)

  /** The DIB-size lookahead: bytes 14..17 OR-ed together as they stand, with
      no shifts. */
  function DibSizeLookahead(buffer: seq<byte>): (r: u32)
    requires |buffer| >= DIB_BODY_OFFSET
    ensures r < 0x100
    ensures r == 0 <==> buffer[14] == 0 && buffer[15] == 0 && buffer[16] == 0 && buffer[17] == 0
    ensures buffer[15] == 0 && buffer[16] == 0 && buffer[17] == 0 ==> r == buffer[14]
  {
    var hi := BitOr(buffer[17], buffer[16]);
    BitOrBound(buffer[17], buffer[16], 8);
    var mid := BitOr(hi, buffer[15]);
    BitOrBound(hi, buffer[15], 8);
    BitOrBound(mid, buffer[14], 8);
    BitOr(mid, buffer[14])
  }

  /** Decodes the file header from the first 14 bytes; the return code is the
      DIB-size lookahead. */
  function ParseBMPFileHeader(buffer: seq<byte>): (r: Parsed<FileHeader>)
    requires |buffer| >= DIB_BODY_OFFSET
    ensures r.code == DibSizeLookahead(buffer)
    ensures r.value.signature == BM <==> buffer[0] == 0x42 && buffer[1] == 0x4D
  {
    var header := FileHeader(
      BeU16(buffer, 0),
      LeU32(buffer, 2),
      LeU16(buffer, 6),
      LeU16(buffer, 8),
      LeU32(buffer, 10));
    Parsed(DibSizeLookahead(buffer), header)
  }

  /** The 14 bytes `header` occupies on disk. */
  function EncodeFileHeader(header: FileHeader): (r: seq<byte>)
    ensures |r| == BMP_FILE_HEADER_SIZE
  {
    EncodeBe16(header.signature) + EncodeLe32(header.fileSize)
      + EncodeLe16(header.rsv0) + EncodeLe16(header.rsv1) + EncodeLe32(header.imgOffset)
  }

  /** Decodes a BITMAPCOREHEADER body: four little-endian 16-bit fields. */
  function ParseBITMAPCOREHEADER(buffer: seq<byte>): (r: DibHeader)
    requires |buffer| >= 8
    ensures r.CoreHeader? && r.Type() == BITMAPCOREHEADER
  {
    CoreHeader(LeU16(buffer, 0), LeU16(buffer, 2), LeU16(buffer, 4), LeU16(buffer, 6))
  }

  /** The 8 bytes after the size field that a core header occupies on disk. */
  function EncodeCoreHeader(header: DibHeader): (r: seq<byte>)
    requires header.CoreHeader?
    ensures |r| == 8
  {
    EncodeLe16(header.coreWidth) + EncodeLe16(header.coreHeight)
      + EncodeLe16(header.colorPlanes) + EncodeLe16(header.bitsPerPixel)
  }

  /** Decodes a BITMAPINFOHEADER body: 32-bit width and height, 16-bit planes
      and bits per pixel, then six 32-bit fields, all little-endian. */
  function ParseBITMAPINFOHEADER(buffer: seq<byte>): (r: DibHeader)
    requires |buffer| >= 36
    ensures r.InfoHeader? && r.Type() == BITMAPINFOHEADER
  {
    InfoHeader(
      LeU32(buffer, 0), LeU32(buffer, 4),
      LeU16(buffer, 8), LeU16(buffer, 10),
      LeU32(buffer, 12), LeU32(buffer, 16), LeU32(buffer, 20),
      LeU32(buffer, 24), LeU32(buffer, 28), LeU32(buffer, 32))
  }

  /** The 36 bytes after the size field that an info header occupies on disk. */
  function EncodeInfoHeader(header: DibHeader): (r: seq<byte>)
    requires header.InfoHeader?
    ensures |r| == 36
  {
    EncodeLe32(header.infoWidth) + EncodeLe32(header.infoHeight)
      + EncodeLe16(header.colorPlanes) + EncodeLe16(header.bitsPerPixel)
      + EncodeLe32(header.compressionMethod) + EncodeLe32(header.imageSize)
      + EncodeLe32(header.horizontalRes) + EncodeLe32(header.verticalRes)
      + EncodeLe32(header.colorPalette) + EncodeLe32(header.importantColors)
  }

  /** Dispatches on `length + 4` (in `uint32_t`): 12 and 40 are parsed and
      return 1; every other key returns -1 and leaves the struct as it was. */
  function ParseDIBHeader(buffer: seq<byte>, length: u32, prior: DibHeader): (r: Parsed<DibHeader>)
    requires |buffer| == length
    ensures var key := Wrap32(length + 4);
      && (r.code == 1 <==> key == BITMAPCOREHEADER || key == BITMAPINFOHEADER)
      && (r.code == 1 ==> r.value.Supported() && r.value.Type() == key)
      && (r.code != 1 ==> r.code == FAILURE && r.value == prior)
    ensures r.code == 1 && r.value.CoreHeader? ==> EncodeCoreHeader(r.value) == buffer
    ensures r.code == 1 && r.value.InfoHeader? ==> EncodeInfoHeader(r.value) == buffer
  {
    var key := Wrap32(length + 4);
    if key == BITMAPCOREHEADER then
      CoreHeaderCanonical(buffer);
      Parsed(1, ParseBITMAPCOREHEADER(buffer))
    else if key == BITMAPINFOHEADER then
      InfoHeaderCanonical(buffer);
      Parsed(1, ParseBITMAPINFOHEADER(buffer))
    else
      Parsed(FAILURE, prior)
  }

  /** Reads 18 bytes from the start of the stream: a short read returns -1 and
      leaves the header as it was, otherwise the bytes are parsed. */
  function ReadBMPFileHeader(image: seq<byte>, prior: FileHeader): (r: Parsed<FileHeader>)
    ensures |image| < DIB_BODY_OFFSET ==> r.code == FAILURE && r.value == prior
    ensures |image| >= DIB_BODY_OFFSET ==> r == ParseBMPFileHeader(image)
  {
    if |image| < DIB_BODY_OFFSET then Parsed(FAILURE, prior)
    else ParseBMPFileHeader(image[..DIB_BODY_OFFSET])
  }

  /** Reads the `dibHeaderSize - 4` remaining DIB header bytes at `pos`. The
      return code is never 0: a short read and an unsupported size both
      return -1. */
  function ReadDIBHeader(image: seq<byte>, pos: nat, dibHeaderSize: u32, prior: DibHeader): (r: Parsed<DibHeader>)
    requires 4 <= dibHeaderSize && pos <= |image|
    ensures r.code == 1 || r.code == FAILURE
    ensures r.code == 1 <==>
      (dibHeaderSize == BITMAPCOREHEADER || dibHeaderSize == BITMAPINFOHEADER)
      && pos + dibHeaderSize - 4 <= |image|
    ensures r.code == 1 ==> r.value.Supported() && r.value.Type() == dibHeaderSize
    ensures r.code == FAILURE ==> r.value == prior
    ensures r.code == 1 && r.value.CoreHeader? ==>
      EncodeCoreHeader(r.value) == image[pos..pos + dibHeaderSize - 4]
    ensures r.code == 1 && r.value.InfoHeader? ==>
      EncodeInfoHeader(r.value) == image[pos..pos + dibHeaderSize - 4]
  {
    var length: u32 := dibHeaderSize - 4;
    if |image| - pos < length then Parsed(FAILURE, prior)
    else ParseDIBHeader(image[pos..pos + length], length, prior)
  }

  /** The size lookahead is 1, 2 or 3 nowhere: `dibHeaderSize - 4` would wrap
      and size a stack array of about 4 GiB. */
  predicate LookaheadDefined(image: seq<byte>)
    requires |image| >= DIB_BODY_OFFSET
  {
    var size := DibSizeLookahead(image);
    size == 0 || size >= 4
  }

  /** The lookahead names a supported header (12 or 40 bytes) and the file
      holds the `size - 4` bytes that follow the size field. */
  predicate DibHeaderAvailable(image: seq<byte>)
    requires |image| >= DIB_BODY_OFFSET
  {
    var size := DibSizeLookahead(image);
    && (size == BITMAPCOREHEADER || size == BITMAPINFOHEADER)
    && DIB_BODY_OFFSET + size - 4 <= |image|
  }

  /** The DIB header struct after `readBitmapFile`'s first two reads. */
  function DibAfterRead(image: seq<byte>, prior: DibHeader): (d: DibHeader)
    requires |image| >= DIB_BODY_OFFSET && LookaheadDefined(image)
    ensures DibSizeLookahead(image) == 0 ==> d == prior
    ensures d == prior || (d.Supported() && d.Type() == DibSizeLookahead(image))
    ensures !prior.Supported() ==>
      (d.Supported() <==> && (DibSizeLookahead(image) == BITMAPCOREHEADER || DibSizeLookahead(image) == BITMAPINFOHEADER)
                          && DIB_BODY_OFFSET + DibSizeLookahead(image) - 4 <= |image|)
    ensures !DibHeaderAvailable(image) ==> d == prior
    ensures DibHeaderAvailable(image) ==> d.Supported() && d.Type() == DibSizeLookahead(image)
    ensures DibHeaderAvailable(image) && d.CoreHeader? ==>
      EncodeCoreHeader(d) == image[DIB_BODY_OFFSET..DIB_BODY_OFFSET + DibSizeLookahead(image) - 4]
    ensures DibHeaderAvailable(image) && d.InfoHeader? ==>
      EncodeInfoHeader(d) == image[DIB_BODY_OFFSET..DIB_BODY_OFFSET + DibSizeLookahead(image) - 4]
  {
    var size := DibSizeLookahead(image);
    if size == 0 then prior else ReadDIBHeader(image, DIB_BODY_OFFSET, size, prior).value
  }

  /** The core-header size expression is evaluated in `int` (the `uint16_t`
      operands are promoted), so it is defined only without signed overflow. */
  predicate SizeDefined(d: DibHeader) {
    d.CoreHeader? ==>
      && d.bitsPerPixel * d.coreWidth + 31 <= INT_MAX
      && (d.bitsPerPixel * d.coreWidth + 31) / 32 * 4 * d.coreHeight <= INT_MAX
  }

  /** The info-header size expression is evaluated in `uint32_t`; this says
      that none of its steps wraps around. */
  predicate SizeExact(d: DibHeader) {
    d.InfoHeader? ==>
      && d.bitsPerPixel * d.infoWidth + 31 < U32_MODULUS
      && (d.bitsPerPixel * d.infoWidth + 31) / 32 * 4 * d.infoHeight < U32_MODULUS
  }

  /** `((bpp * width + 31) / 32) * 4 * height`: rows rounded up to 4 bytes.
      Variants other than the two supported ones have no size. */
  function PixelArraySize(d: DibHeader): (r: Option<u32>)
    requires SizeDefined(d)
    ensures r.Some? <==> d.Supported()
    ensures r.Some? ==> r.value % 4 == 0
  {
    match d
    case CoreHeader(w, h, _, bpp) =>
      var rowWords := (bpp * w + 31) / 32;
      MultipleOf4(rowWords * 4, h);
      Some(rowWords * 4 * h)
    case InfoHeader(w, h, _, bpp, _, _, _, _, _, _) =>
      var rowWords := Wrap32(Wrap32(bpp * w) + 31) / 32;
      var rowBytes := Wrap32(rowWords * 4);
      MultipleOf4(rowWords, 4);
      WrapKeepsMultipleOf4(rowWords * 4);
      MultipleOf4(rowBytes, h);
      WrapKeepsMultipleOf4(rowBytes * h);
      Some(Wrap32(rowBytes * h))
    case NoHeader =>
      None
  }

  lemma MultipleOf4(m: nat, h: nat)
    requires m % 4 == 0 || h == 4
    ensures (m * h) % 4 == 0
  {
    if h == 4 {
      assert m * h == 4 * m;
    } else {
      assert m * h == 4 * ((m / 4) * h);
    }
  }

  /** Reduction modulo 2^32 keeps a multiple of 4 a multiple of 4. */
  lemma WrapKeepsMultipleOf4(x: nat)
    requires x % 4 == 0
    ensures Wrap32(x) % 4 == 0
  {
    var q := x / U32_MODULUS;
    assert x == q * U32_MODULUS + Wrap32(x);
    assert Wrap32(x) == 4 * (x / 4 - q * 0x4000_0000);
  }

  datatype Option<T> = None | Some(value: T)

  /** What `readBitmapFile` needs of the file to stay within defined C
      behaviour: the 18-byte read succeeds, the size lookahead is not 1..3, the
      core-header size does not overflow `int`, and the pixel array lies
      inside the file (an unchecked short read would leave bytes
      uninitialised). */
  predicate ReadDefined(image: seq<byte>, prior: DibHeader) {
    && |image| >= DIB_BODY_OFFSET
    && LookaheadDefined(image)
    && var d := DibAfterRead(image, prior);
       DibSizeLookahead(image) != 0 && d.Supported() ==>
         && SizeDefined(d)
         && ParseBMPFileHeader(image).value.imgOffset + PixelArraySize(d).value <= |image|
  }

  /** A bitmap in memory: the two headers and the pixel array. */
  class Bitmap {
    var fileHeader: FileHeader
    var dibHeader: DibHeader
    var pixelArray: array<byte>

    /** A bitmap nothing has been read into yet. */
    constructor ()
      ensures fileHeader == FileHeader(0, 0, 0, 0, 0)
      ensures dibHeader == NoHeader
      ensures pixelArray.Length == 0
    {
      fileHeader := FileHeader(0, 0, 0, 0, 0);
      dibHeader := NoHeader;
      pixelArray := new byte[0];
    }

    /** Reads the headers and the pixel array from `image`; 1 on success, 0
        on error. Only a 0 from the two header reads is treated as an error,
        so a -1 from a short DIB read or an unsupported size falls through to
        the switch on the DIB header's type, which sees the struct as it was
        before. */
    method ReadBitmapFile(image: seq<byte>) returns (status: u32)
      requires ReadDefined(image, dibHeader)
      modifies this
      ensures fileHeader == ParseBMPFileHeader(image).value
      ensures dibHeader == DibAfterRead(image, old(dibHeader))
      ensures status == 0 || status == 1
      ensures status == 1 <==> DibSizeLookahead(image) != 0 && dibHeader.Supported()
      ensures status == 1 ==>
        && fresh(pixelArray)
        && SizeDefined(dibHeader)
        && var offset, size := fileHeader.imgOffset, PixelArraySize(dibHeader).value;
           offset + size <= |image| && pixelArray[..] == image[offset..offset + size]
      ensures status == 0 ==> pixelArray == old(pixelArray)
    {
      var fileRead := ReadBMPFileHeader(image, fileHeader);
      fileHeader := fileRead.value;
      var dibHeaderType := fileRead.code;
      if dibHeaderType == 0 {
        return 0;
      }

      var dibRead := ReadDIBHeader(image, DIB_BODY_OFFSET, dibHeaderType, dibHeader);
      dibHeader := dibRead.value;
      if dibRead.code == 0 {
        // never taken: a failed DIB read returns -1, not 0
        assert false;
      }

      if !dibHeader.Supported() {
        return 0;
      }
      var pixelArraySize := PixelArraySize(dibHeader).value;

      // malloc, then fseek to the image offset and fread the whole array
      var offset := fileHeader.imgOffset;
      pixelArray := new byte[pixelArraySize](i requires 0 <= i < pixelArraySize => image[offset + i]);
      return 1;
    }
  }

  /** The header sizes the source names but does not implement (OS/2 2.x,
      its short form, V2 to V5) are all rejected with -1, leaving the struct
      as it was; an OS/2 1.x header, 12 bytes long, is parsed as a core
      header. */
  lemma NamedSizesUnsupported(buffer: seq<byte>, length: u32, prior: DibHeader)
    requires |buffer| == length
    ensures length + 4 in {OS22XBITMAPHEADER, OS22XBITMAPHEADER_S, BITMAPV2INFOHEADER,
                           BITMAPV3INFOHEADER, BITMAPV4HEADER, BITMAPV5HEADER} ==>
      ParseDIBHeader(buffer, length, prior) == Parsed(FAILURE, prior)
    ensures length + 4 == OS21XBITMAPHEADER ==>
      ParseDIBHeader(buffer, length, prior).value.CoreHeader?
  {
  }

  /** A freshly declared bitmap reads successfully exactly when the declared
      size is 12 or 40 and the file holds the rest of that header. */
  lemma FreshReadSucceeds(image: seq<byte>)
    requires |image| >= DIB_BODY_OFFSET && LookaheadDefined(image)
    ensures var size := DibSizeLookahead(image);
      DibAfterRead(image, NoHeader).Supported() <==>
        (size == BITMAPCOREHEADER || size == BITMAPINFOHEADER)
        && DIB_BODY_OFFSET + size - 4 <= |image|
  {
  }

  /** The file header's bytes parse back to the header, and a declared size
      below 256 comes back from the lookahead. */
  lemma {:induction false} FileHeaderRoundTrip(header: FileHeader, dibSize: u32)
    requires dibSize < 0x100
    ensures ParseBMPFileHeader(EncodeFileHeader(header) + EncodeLe32(dibSize)) == Parsed(dibSize, header)
  {
    var buffer := EncodeFileHeader(header) + EncodeLe32(dibSize);
    Be16RoundTrip(header.signature);
    Le32RoundTrip(header.fileSize);
    Le16RoundTrip(header.rsv0);
    Le16RoundTrip(header.rsv1);
    Le32RoundTrip(header.imgOffset);
    assert buffer[15] == 0 && buffer[16] == 0 && buffer[17] == 0;
  }

  /** Every 14-byte file header on disk is the encoding of what it parses to. */
  lemma {:induction false} FileHeaderCanonical(buffer: seq<byte>)
    requires |buffer| >= DIB_BODY_OFFSET
    ensures EncodeFileHeader(ParseBMPFileHeader(buffer).value) == buffer[..BMP_FILE_HEADER_SIZE]
  {
    Be16Canonical(buffer, 0);
    Le32Canonical(buffer, 2);
    Le16Canonical(buffer, 6);
    Le16Canonical(buffer, 8);
    Le32Canonical(buffer, 10);
    assert buffer[..BMP_FILE_HEADER_SIZE]
      == buffer[0..2] + buffer[2..6] + buffer[6..8] + buffer[8..10] + buffer[10..14];
  }

  /** The lookahead agrees with a little-endian reading of bytes 14..17
      exactly when bytes 15..17 are zero: for a declared size of 256 or more
      it returns something else. */
  lemma LookaheadIsLittleEndianOnlyBelow256(buffer: seq<byte>)
    requires |buffer| >= DIB_BODY_OFFSET
    ensures DibSizeLookahead(buffer) == LeU32(buffer, 14)
      <==> buffer[15] == 0 && buffer[16] == 0 && buffer[17] == 0
  {
    if buffer[15] != 0 || buffer[16] != 0 || buffer[17] != 0 {
      assert LeU32(buffer, 14) >= 0x100;
    }
  }

  /** The core-header bytes parse back to the header. */
  lemma {:induction false} CoreHeaderRoundTrip(header: DibHeader)
    requires header.CoreHeader?
    ensures ParseBITMAPCOREHEADER(EncodeCoreHeader(header)) == header
  {
    Le16RoundTrip(header.coreWidth);
    Le16RoundTrip(header.coreHeight);
    Le16RoundTrip(header.colorPlanes);
    Le16RoundTrip(header.bitsPerPixel);
  }

  /** The 8 bytes a core-header parse reads are the encoding of its result. */
  lemma {:induction false} CoreHeaderCanonical(buffer: seq<byte>)
    requires |buffer| >= 8
    ensures EncodeCoreHeader(ParseBITMAPCOREHEADER(buffer)) == buffer[..8]
  {
    Le16Canonical(buffer, 0);
    Le16Canonical(buffer, 2);
    Le16Canonical(buffer, 4);
    Le16Canonical(buffer, 6);
    assert buffer[..8] == buffer[0..2] + buffer[2..4] + buffer[4..6] + buffer[6..8];
  }

  /** The info-header bytes parse back to the header. */
  lemma {:induction false} InfoHeaderRoundTrip(header: DibHeader)
    requires header.InfoHeader?
    ensures ParseBITMAPINFOHEADER(EncodeInfoHeader(header)) == header
  {
    Le32RoundTrip(header.infoWidth);
    Le32RoundTrip(header.infoHeight);
    Le16RoundTrip(header.colorPlanes);
    Le16RoundTrip(header.bitsPerPixel);
    Le32RoundTrip(header.compressionMethod);
    Le32RoundTrip(header.imageSize);
    Le32RoundTrip(header.horizontalRes);
    Le32RoundTrip(header.verticalRes);
    Le32RoundTrip(header.colorPalette);
    Le32RoundTrip(header.importantColors);
  }

  /** The 36 bytes an info-header parse reads are the encoding of its result. */
  lemma {:induction false} InfoHeaderCanonical(buffer: seq<byte>)
    requires |buffer| >= 36
    ensures EncodeInfoHeader(ParseBITMAPINFOHEADER(buffer)) == buffer[..36]
  {
    Le32Canonical(buffer, 0);
    Le32Canonical(buffer, 4);
    Le16Canonical(buffer, 8);
    Le16Canonical(buffer, 10);
    Le32Canonical(buffer, 12);
    Le32Canonical(buffer, 16);
    Le32Canonical(buffer, 20);
    Le32Canonical(buffer, 24);
    Le32Canonical(buffer, 28);
    Le32Canonical(buffer, 32);
    assert buffer[..36] == buffer[0..4] + buffer[4..8] + buffer[8..10] + buffer[10..12]
      + buffer[12..16] + buffer[16..20] + buffer[20..24] + buffer[24..28]
      + buffer[28..32] + buffer[32..36];
  }

  /** Without wrap-around the computed size is the row-padded formula itself. */
  lemma PixelArraySizeExact(d: DibHeader)
    requires d.Supported() && SizeDefined(d) && SizeExact(d)
    ensures PixelArraySize(d).value == (d.bitsPerPixel * d.Width() + 31) / 32 * 4 * d.Height()
  {
    if d.InfoHeader? {
      var rowWords := (d.bitsPerPixel * d.infoWidth + 31) / 32;
      assert rowWords * 4 <= d.bitsPerPixel * d.infoWidth + 31;
    }
  }

  /** At 24 bits per pixel the padded pixel array holds at least the
      `3 * width * height` bytes of the pixels themselves. */
  lemma {:induction false} PixelArrayHoldsPixelBytes(d: DibHeader)
    requires d.Supported() && d.bitsPerPixel == 24 && SizeDefined(d) && SizeExact(d)
    ensures PixelArraySize(d).value >= 3 * d.Width() * d.Height()
  {
    PixelArraySizeExact(d);
    var w, h := d.Width(), d.Height();
    var rowWords := (24 * w + 31) / 32;
    assert 32 * rowWords >= 24 * w;
    assert rowWords * 4 >= 3 * w;
    MulMonotone(3 * w, rowWords * 4, h);
  }

  lemma MulMonotone(a: nat, b: nat, h: nat)
    requires a <= b
    ensures a * h <= b * h
  {
  }
}
