/** The constants of the BMP format that the reader and the decoder use. */
module BmpConstants {

  /** Size in bytes of the bitmap file header. */
  const BMP_FILE_HEADER_SIZE: nat := 14

  /** The signature "BM", read as the big-endian pair 0x42 0x4D. */
  const BM: nat := 0x424D

  /** DIB header variants, identified by the size in bytes of the header. */
  const BITMAPCOREHEADER: nat := 12
  const OS21XBITMAPHEADER: nat := 12
  const OS22XBITMAPHEADER: nat := 64
  const OS22XBITMAPHEADER_S: nat := 16
  const BITMAPINFOHEADER: nat := 40
  const BITMAPV2INFOHEADER: nat := 52
  const BITMAPV3INFOHEADER: nat := 56
  const BITMAPV4HEADER: nat := 108
  const BITMAPV5HEADER: nat := 124

  /** Compression method "none" in a BITMAPINFOHEADER. */
  const BI_RGB: nat := 0
}
