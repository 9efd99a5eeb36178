/** The Windows bitmap file `createBMP` (Nokia_OTB_Picture_Viewer/script.js)
    makes of an OTB picture, described byte by byte: a 14-byte file header, a
    40-byte info header, a two-entry palette, then one padded row of packed
    pixel bits per picture row, top row first. The lemmas state what a reader
    of the file finds in it; module BmpWriter builds it. */
module Bmp {
  import opened Otb
  import opened LittleEndian
  import opened Packing

  const FileHeaderSize: nat := 14
  const InfoHeaderSize: nat := 40
  const ColorTableSize: nat := 8
  const DataOffset: nat := 62

  function BytesPerRow(w: nat): nat {
    CeilDiv(w, 8)
  }

  /** Row stride: the row's bytes rounded up to a multiple of four. */
  function PaddedBytesPerRow(w: nat): nat {
    CeilDiv(BytesPerRow(w), 4) * 4
  }

  /** The pixel data's size: one stride per row (ImageSizeIsProduct shows it
      is the source's `paddedBytesPerRow * height`). */
  function ImageSize(w: nat, h: nat): nat
    decreases h
  {
    if h == 0 then 0 else ImageSize(w, h - 1) + PaddedBytesPerRow(w)
  }

  lemma {:induction false} ImageSizeIsProduct(w: nat, h: nat)
    ensures ImageSize(w, h) == PaddedBytesPerRow(w) * h == h * PaddedBytesPerRow(w)
    decreases h
  {
    if h > 0 {
      ImageSizeIsProduct(w, h - 1);
    }
  }

  /** Row y lies wholly before the end of the first n > y rows. */
  lemma {:induction false} ImageSizeGrows(w: nat, y: nat, n: nat)
    requires y < n
    ensures ImageSize(w, y) + PaddedBytesPerRow(w) <= ImageSize(w, n)
    decreases n
  {
    if y < n - 1 {
      ImageSizeGrows(w, y, n - 1);
    }
  }

  function FileSize(w: nat, h: nat): nat {
    DataOffset + ImageSize(w, h)
  }

  /** The stride is the least multiple of four that holds the row's bytes,
      and those are the least number of bytes that hold w bits. */
  lemma StrideIsPadded(w: nat)
    ensures PaddedBytesPerRow(w) % 4 == 0
    ensures BytesPerRow(w) <= PaddedBytesPerRow(w) < BytesPerRow(w) + 4
    ensures BytesPerRow(w) * 8 >= w && (BytesPerRow(w) == 0 || (BytesPerRow(w) - 1) * 8 < w)
  {
    CeilDivIsLeast(w, 8);
    CeilDivIsLeast(BytesPerRow(w), 4);
  }

  // ---------------------------------------------------------------------------
  // The preamble.

  /** The two palette entries exactly as the source stores them (blue, green,
      red, reserved): entry 0 is 0,0,0,0 (black) and entry 1 is
      255,255,255,0 (white). */
  function ColorTable(): (s: seq<Byte>)
    ensures |s| == ColorTableSize
  {
    [0, 0, 0, 0, 255, 255, 255, 0]
  }

  /** One little-endian integer field of the headers: where it starts, how
      many bytes it takes (2 or 4) and the value stored there. */
  datatype HeaderField = HeaderField(start: nat, width: nat, value: int)

  /** The header field covering byte i, in the order the source writes them:
      the 14-byte file header (signature "BM", file size, reserved, data
      offset), then the 40-byte info header (header size, width, negated
      height for top-down rows, planes, bits per pixel, no compression, image
      size, 2835 pixels per metre both ways, colours used and important). */
  function FieldAt(w: nat, h: nat, i: nat): (f: HeaderField)
    requires i < FileHeaderSize + InfoHeaderSize
    ensures f.start <= i < f.start + f.width && (f.width == 2 || f.width == 4)
  {
    if i < 2 then HeaderField(0, 2, 0x4D42)
    else if i < 6 then HeaderField(2, 4, FileSize(w, h))
    else if i < 10 then HeaderField(6, 4, 0)
    else if i < 14 then HeaderField(10, 4, DataOffset)
    else if i < 18 then HeaderField(14, 4, InfoHeaderSize)
    else if i < 22 then HeaderField(18, 4, w)
    else if i < 26 then HeaderField(22, 4, -(h as int))
    else if i < 28 then HeaderField(26, 2, 1)
    else if i < 30 then HeaderField(28, 2, 1)
    else if i < 34 then HeaderField(30, 4, 0)
    else if i < 38 then HeaderField(34, 4, ImageSize(w, h))
    else if i < 42 then HeaderField(38, 4, 2835)
    else if i < 46 then HeaderField(42, 4, 2835)
    else if i < 50 then HeaderField(46, 4, 2)
    else HeaderField(50, 4, 2)
  }

  /** Byte i of the preamble: its byte of the field covering it, or of the
      palette after the headers. */
  function HeaderByte(w: nat, h: nat, i: nat): Byte
    requires i < DataOffset
  {
    if i < FileHeaderSize + InfoHeaderSize then
      var f := FieldAt(w, h, i);
      if f.width == 2 then Le16(f.value)[i - f.start] else Le32(f.value)[i - f.start]
    else ColorTable()[i - (FileHeaderSize + InfoHeaderSize)]
  }

  /** The 62 bytes before the pixel data. */
  function Preamble(w: nat, h: nat): (s: seq<Byte>)
    ensures |s| == DataOffset
  {
    seq(DataOffset, i requires 0 <= i < DataOffset => HeaderByte(w, h, i))
  }

  /** The 14-byte file header as `createBMP` writes it, field after field. */
  function FileHeader(w: nat, h: nat): (s: seq<Byte>)
    ensures |s| == FileHeaderSize
  {
    Le16(0x4D42) + Le32(FileSize(w, h)) + Le32(0) + Le32(DataOffset)
  }

  /** The 40-byte info header as `createBMP` writes it, field after field. */
  function InfoHeader(w: nat, h: nat): (s: seq<Byte>)
    ensures |s| == InfoHeaderSize
  {
    Le32(InfoHeaderSize) + Le32(w) + Le32(-(h as int)) + Le16(1) + Le16(1) + Le32(0) + Le32(ImageSize(w, h))
    + Le32(2835) + Le32(2835) + Le32(2) + Le32(2)
  }

  lemma FileHeaderAt(w: nat, h: nat, i: nat)
    requires i < FileHeaderSize
    ensures FileHeader(w, h)[i] == HeaderByte(w, h, i)
  {
    if i < 2 {
    } else if i < 6 {
    } else if i < 10 {
    } else {
    }
  }

  lemma InfoHeaderAt(w: nat, h: nat, i: nat)
    requires i < InfoHeaderSize
    ensures InfoHeader(w, h)[i] == HeaderByte(w, h, FileHeaderSize + i)
  {
    if i < 4 {
    } else if i < 8 {
    } else if i < 12 {
    } else if i < 14 {
    } else if i < 16 {
    } else if i < 20 {
    } else if i < 24 {
    } else if i < 28 {
    } else if i < 32 {
    } else if i < 36 {
    } else {
    }
  }

  /** The preamble is the two headers, written field after field, and the palette. */
  lemma PreambleParts(w: nat, h: nat)
    ensures Preamble(w, h) == FileHeader(w, h) + InfoHeader(w, h) + ColorTable()
  {
    var parts := FileHeader(w, h) + InfoHeader(w, h) + ColorTable();
    forall i | 0 <= i < DataOffset
      ensures Preamble(w, h)[i] == parts[i]
    {
      if i < FileHeaderSize {
        FileHeaderAt(w, h, i);
      } else if i < FileHeaderSize + InfoHeaderSize {
        InfoHeaderAt(w, h, i - FileHeaderSize);
      }
    }
  }

  /** Byte i of the preamble is the byte of the field that covers it. */
  lemma PreambleAt(w: nat, h: nat, i: nat)
    requires i < DataOffset
    ensures Preamble(w, h)[i] == HeaderByte(w, h, i)
  {
  }

  // ---------------------------------------------------------------------------
  // The pixel data.

  /** Bit i of the packed OTB bitstream, most significant bit of each byte first. */
  function SourceBit(bitmapData: seq<Byte>, i: nat): Bit
    requires i / 8 < |bitmapData|
  {
    BitAt(bitmapData[i / 8], 7 - i % 8)
  }

  /** Row-major index of pixel (x, y) in the OTB bitstream. */
  function SrcBitIndex(w: nat, y: nat, x: nat): nat {
    y * w + x
  }

  /** The bit the encoder stores for pixel (x, y): the source bit inverted, or
      1 when the source has no byte for it. */
  function OutputBit(w: nat, y: nat, x: nat, bitmapData: seq<Byte>): Bit {
    var srcBitIndex := SrcBitIndex(w, y, x);
    if srcBitIndex / 8 < |bitmapData| then
      (if SourceBit(bitmapData, srcBitIndex) != 0 then 0 else 1)
    else 1
  }

  /** The stored bits of the first n pixels of row y. */
  function RowPrefix(w: nat, y: nat, n: nat, bitmapData: seq<Byte>): (row: seq<Bit>)
    ensures |row| == n
    decreases n
  {
    if n == 0 then [] else RowPrefix(w, y, n - 1, bitmapData) + [OutputBit(w, y, n - 1, bitmapData)]
  }

  /** The stored bits of row y, one per pixel. */
  function RowBits(w: nat, y: nat, bitmapData: seq<Byte>): (row: seq<Bit>)
    ensures |row| == w
  {
    RowPrefix(w, y, w, bitmapData)
  }

  lemma {:induction false} RowPrefixAt(w: nat, y: nat, n: nat, bitmapData: seq<Byte>, x: nat)
    requires x < n
    ensures RowPrefix(w, y, n, bitmapData)[x] == OutputBit(w, y, x, bitmapData)
    decreases n
  {
    if x < n - 1 {
      RowPrefixAt(w, y, n - 1, bitmapData, x);
    }
  }

  /** Row y of the pixel data: its bits packed and padded to the stride. */
  function Row(w: nat, y: nat, bitmapData: seq<Byte>): (r: seq<Byte>)
    ensures |r| == PaddedBytesPerRow(w)
  {
    PackRow(RowBits(w, y, bitmapData), PaddedBytesPerRow(w))
  }

  /** The first n rows of pixel data, top row first. */
  function PixelData(w: nat, n: nat, bitmapData: seq<Byte>): (s: seq<Byte>)
    ensures |s| == ImageSize(w, n)
    decreases n
  {
    if n == 0 then [] else PixelData(w, n - 1, bitmapData) + Row(w, n - 1, bitmapData)
  }

  /** The whole file `createBMP` returns. */
  function BmpFile(w: nat, h: nat, bitmapData: seq<Byte>): (s: seq<Byte>)
    ensures |s| == FileSize(w, h)
  {
    Preamble(w, h) + PixelData(w, h, bitmapData)
  }

  /** Position in the file of byte k of row y. */
  function RowBytePos(w: nat, y: nat, k: nat): nat {
    DataOffset + ImageSize(w, y) + k
  }

  // ---------------------------------------------------------------------------
  // Where things are in the file.

  /** The file has 62 preamble bytes and one stride per row. */
  lemma BmpFileSize(w: nat, h: nat, bitmapData: seq<Byte>)
    ensures |BmpFile(w, h, bitmapData)| == 62 + CeilDiv(CeilDiv(w, 8), 4) * 4 * h
  {
    ImageSizeIsProduct(w, h);
  }

  /** The file is its preamble followed by its pixel data. */
  lemma BmpFileParts(w: nat, h: nat, bitmapData: seq<Byte>)
    ensures BmpFile(w, h, bitmapData)[..DataOffset] == Preamble(w, h)
    ensures BmpFile(w, h, bitmapData)[DataOffset..] == PixelData(w, h, bitmapData)
  {
  }

  /** Byte k of row y of the pixel data follows the y rows before it. */
  lemma PixelDataAt(w: nat, n: nat, bitmapData: seq<Byte>, y: nat, k: nat)
    requires y < n && k < PaddedBytesPerRow(w)
    ensures ImageSize(w, y) + k < |PixelData(w, n, bitmapData)|
    ensures PixelData(w, n, bitmapData)[ImageSize(w, y) + k] == Row(w, y, bitmapData)[k]
  {
    PixelDataPrefix(w, y + 1, n, bitmapData);
    LastRowAt(w, y, bitmapData, k);
    PrefixAt(PixelData(w, y + 1, bitmapData), PixelData(w, n, bitmapData), ImageSize(w, y) + k);
  }

  /** The first m rows of pixel data begin the first n >= m rows. */
  lemma {:induction false} PixelDataPrefix(w: nat, m: nat, n: nat, bitmapData: seq<Byte>)
    requires m <= n
    ensures PixelData(w, m, bitmapData) <= PixelData(w, n, bitmapData)
    decreases n
  {
    if m < n {
      PixelDataPrefix(w, m, n - 1, bitmapData);
      PrefixGrows(PixelData(w, m, bitmapData), PixelData(w, n - 1, bitmapData), Row(w, n - 1, bitmapData),
                  PixelData(w, n, bitmapData));
    }
  }

  lemma PrefixAt(a: seq<Byte>, b: seq<Byte>, i: nat)
    requires a <= b && i < |a|
    ensures i < |b| && b[i] == a[i]
  {
  }

  lemma PrefixGrows(a: seq<Byte>, b: seq<Byte>, c: seq<Byte>, d: seq<Byte>)
    requires a <= b && d == b + c
    ensures a <= d
  {
  }

  /** Row y follows the y rows before it. */
  lemma LastRowAt(w: nat, y: nat, bitmapData: seq<Byte>, k: nat)
    requires k < PaddedBytesPerRow(w)
    ensures ImageSize(w, y) + k < |PixelData(w, y + 1, bitmapData)|
    ensures PixelData(w, y + 1, bitmapData)[ImageSize(w, y) + k] == Row(w, y, bitmapData)[k]
  {
    AppendAt(PixelData(w, y, bitmapData), Row(w, y, bitmapData), k);
  }

  lemma AppendAt(a: seq<Byte>, b: seq<Byte>, i: nat)
    requires i < |b|
    ensures (a + b)[|a| + i] == b[i]
  {
  }

  /** Reading byte k of row y out of the file. */
  lemma BmpFileAt(w: nat, h: nat, bitmapData: seq<Byte>, y: nat, k: nat)
    requires y < h && k < PaddedBytesPerRow(w)
    ensures RowBytePos(w, y, k) < |BmpFile(w, h, bitmapData)|
    ensures BmpFile(w, h, bitmapData)[RowBytePos(w, y, k)] == Row(w, y, bitmapData)[k]
  {
    PixelDataAt(w, h, bitmapData, y, k);
    AppendAt(Preamble(w, h), PixelData(w, h, bitmapData), ImageSize(w, y) + k);
  }

  /** Distinct (row, byte) pairs lie at distinct positions: rows never overlap. */
  lemma RowsDisjoint(w: nat, y1: nat, k1: nat, y2: nat, k2: nat)
    requires k1 < PaddedBytesPerRow(w) && k2 < PaddedBytesPerRow(w)
    requires RowBytePos(w, y1, k1) == RowBytePos(w, y2, k2)
    ensures y1 == y2 && k1 == k2
  {
    if y1 < y2 {
      ImageSizeGrows(w, y1, y2);
    } else if y2 < y1 {
      ImageSizeGrows(w, y2, y1);
    }
  }

  /** Bit 7-(x%8) of byte x/8 of row y, for every x the stride holds: the
      stored bit of pixel x while x is inside the picture, zero after it. */
  lemma BmpFileBit(w: nat, h: nat, bitmapData: seq<Byte>, y: nat, x: nat)
    requires y < h && x < 8 * PaddedBytesPerRow(w)
    ensures x / 8 < PaddedBytesPerRow(w)
    ensures RowBytePos(w, y, x / 8) < |BmpFile(w, h, bitmapData)|
    ensures BitAt(BmpFile(w, h, bitmapData)[RowBytePos(w, y, x / 8)], 7 - x % 8)
         == if x < w then OutputBit(w, y, x, bitmapData) else 0
  {
    var row := RowBits(w, y, bitmapData);
    PackRowBit(row, PaddedBytesPerRow(w), x);
    if x < w {
      RowPrefixAt(w, y, w, bitmapData, x);
    }
    BmpFileAt(w, h, bitmapData, y, x / 8);
  }

  /** For every pixel, bit 7-(x%8) of byte x/8 of row y is the inverted source
      bit, or 1 when the source has no byte for the pixel. */
  lemma PixelBitInFile(w: nat, h: nat, bitmapData: seq<Byte>, y: nat, x: nat)
    requires y < h && x < w
    ensures x / 8 < PaddedBytesPerRow(w)
    ensures RowBytePos(w, y, x / 8) < |BmpFile(w, h, bitmapData)|
    ensures var i := SrcBitIndex(w, y, x);
            BitAt(BmpFile(w, h, bitmapData)[RowBytePos(w, y, x / 8)], 7 - x % 8)
            == if i / 8 < |bitmapData| && SourceBit(bitmapData, i) == 1 then 0 else 1
  {
    StrideIsPadded(w);
    BmpFileBit(w, h, bitmapData, y, x);
  }

  /** Past the last pixel of a row, the rest of its last data byte and every
      padding byte up to the stride are zero. */
  lemma RowPaddingIsZero(w: nat, h: nat, bitmapData: seq<Byte>, y: nat, x: nat)
    requires y < h && w <= x < 8 * PaddedBytesPerRow(w)
    ensures RowBytePos(w, y, x / 8) < |BmpFile(w, h, bitmapData)|
    ensures BitAt(BmpFile(w, h, bitmapData)[RowBytePos(w, y, x / 8)], 7 - x % 8) == 0
  {
    BmpFileBit(w, h, bitmapData, y, x);
  }

  // ---------------------------------------------------------------------------
  // The preamble, field by field.

  /** A 16-bit field of the preamble holding Le16(v) reads as v modulo 2^16. */
  lemma Field16(w: nat, h: nat, off: nat, v: int)
    requires off + 2 <= DataOffset
    requires HeaderByte(w, h, off) == Le16(v)[0] && HeaderByte(w, h, off + 1) == Le16(v)[1]
    ensures U16At(Preamble(w, h), off) == v % 0x1_0000
  {
    PreambleAt(w, h, off);
    PreambleAt(w, h, off + 1);
    Le16RoundTrip(v);
  }

  /** A 32-bit field of the preamble holding Le32(v) reads as v modulo 2^32. */
  lemma Field32(w: nat, h: nat, off: nat, v: int)
    requires off + 4 <= DataOffset
    requires HeaderByte(w, h, off) == Le32(v)[0] && HeaderByte(w, h, off + 1) == Le32(v)[1]
    requires HeaderByte(w, h, off + 2) == Le32(v)[2] && HeaderByte(w, h, off + 3) == Le32(v)[3]
    ensures U32At(Preamble(w, h), off) == v % 0x1_0000_0000
  {
    PreambleAt(w, h, off);
    PreambleAt(w, h, off + 1);
    PreambleAt(w, h, off + 2);
    PreambleAt(w, h, off + 3);
    ReadAt(Preamble(w, h), off, Le32(v));
    Le32RoundTrip(v);
  }

  /** Every byte of a header field is covered by that same field. */
  lemma FieldSpan(w: nat, h: nat, i: nat, k: nat)
    requires i < FileHeaderSize + InfoHeaderSize
    requires FieldAt(w, h, i).start <= k < FieldAt(w, h, i).start + FieldAt(w, h, i).width
    ensures FieldAt(w, h, k) == FieldAt(w, h, i)
  {
  }

  /** Every header field reads back, as a little-endian integer of its width,
      as the value written there modulo 2^16 or 2^32. */
  lemma FieldReads(w: nat, h: nat, i: nat)
    requires i < FileHeaderSize + InfoHeaderSize
    ensures var f := FieldAt(w, h, i);
      && f.start + f.width <= DataOffset
      && (f.width == 2 ==> U16At(Preamble(w, h), f.start) == f.value % 0x1_0000)
      && (f.width == 4 ==> U32At(Preamble(w, h), f.start) == f.value % 0x1_0000_0000)
  {
    var f := FieldAt(w, h, i);
    FieldSpan(w, h, i, f.start);
    FieldSpan(w, h, i, f.start + 1);
    if f.width == 2 {
      Field16(w, h, f.start, f.value);
    } else {
      FieldSpan(w, h, i, f.start + 2);
      FieldSpan(w, h, i, f.start + 3);
      Field32(w, h, f.start, f.value);
    }
  }

  /** The file header as a reader decodes it: the signature "BM", the file
      size (modulo 2^32, as `setUint32` stores it), a zero reserved field and
      the offset of the pixel data. */
  lemma FileHeaderFields(w: nat, h: nat)
    ensures var p := Preamble(w, h);
      && p[0] == 0x42 && p[1] == 0x4D && U16At(p, 0) == 0x4D42
      && U32At(p, 2) == FileSize(w, h) % 0x1_0000_0000 && U32At(p, 6) == 0 && U32At(p, 10) == 62
  {
    FieldReads(w, h, 0);
    FieldReads(w, h, 2);
    FieldReads(w, h, 6);
    FieldReads(w, h, 10);
  }

  /** The height field holds the negated height, so rows are stored top-down. */
  lemma HeightField(w: nat, h: nat)
    requires h <= 0x8000_0000
    ensures I32At(Preamble(w, h), 22) == -(h as int)
  {
    FieldReads(w, h, 22);
    assert (-(h as int)) % 0x1_0000_0000 == if h == 0 then 0 else 0x1_0000_0000 - h;
  }

  /** The info header's description of the picture: its own size, the width,
      the negated height, one plane and one bit per pixel. */
  lemma InfoHeaderFields(w: nat, h: nat)
    requires w < 0x8000_0000 && h <= 0x8000_0000
    ensures var p := Preamble(w, h);
      && U32At(p, 14) == 40 && I32At(p, 18) == w && I32At(p, 22) == -(h as int)
      && U16At(p, 26) == 1 && U16At(p, 28) == 1
  {
    FieldReads(w, h, 14);
    FieldReads(w, h, 18);
    HeightField(w, h);
    FieldReads(w, h, 26);
    FieldReads(w, h, 28);
  }

  /** The rest of the info header: no compression, the image size (modulo
      2^32), 2835 pixels per metre both ways, and two colours used and
      important. */
  lemma InfoHeaderLayout(w: nat, h: nat)
    ensures var p := Preamble(w, h);
      && U32At(p, 30) == 0 && U32At(p, 34) == ImageSize(w, h) % 0x1_0000_0000
      && I32At(p, 38) == 2835 && I32At(p, 42) == 2835
      && U32At(p, 46) == 2 && U32At(p, 50) == 2
  {
    FieldReads(w, h, 30);
    FieldReads(w, h, 34);
    FieldReads(w, h, 38);
    FieldReads(w, h, 42);
    FieldReads(w, h, 46);
    FieldReads(w, h, 50);
  }

  /** Bytes 54..61 are the palette exactly as the source writes it. */
  lemma PaletteBytes(w: nat, h: nat)
    ensures Preamble(w, h)[54..] == [0, 0, 0, 0, 255, 255, 255, 0]
  {
    var p := Preamble(w, h);
    forall j | 0 <= j < 8
      ensures p[54..][j] == ColorTable()[j]
    {
      PreambleAt(w, h, 54 + j);
    }
    assert p[54..] == ColorTable();
  }

  // ---------------------------------------------------------------------------
  // Round trip back to the OTB picture.

  /** Pixel i (row-major) of the OTB picture: its bit in the stream, with
      pixels the data does not reach left white (0). */
  function OtbPixel(bitmapData: seq<Byte>, i: nat): Bit {
    if i / 8 < |bitmapData| then SourceBit(bitmapData, i) else 0
  }

  /** The OTB picture as rows of w pixels, 1 for ink. */
  function OtbPicture(bitmapData: seq<Byte>, w: nat, h: nat): (p: seq<seq<Bit>>)
    ensures |p| == h
  {
    seq(h, y requires 0 <= y < h => seq(w, x requires 0 <= x < w => OtbPixel(bitmapData, SrcBitIndex(w, y, x))))
  }

  /** Where pixel (x, y) of a w x h picture lies in its file. */
  lemma PixelInside(w: nat, h: nat, y: nat, x: nat)
    requires y < h && x < w
    ensures x / 8 < PaddedBytesPerRow(w)
    ensures RowBytePos(w, y, x / 8) < FileSize(w, h)
  {
    StrideIsPadded(w);
    ImageSizeGrows(w, y, h);
  }

  /** What a viewer reads back from a file of a w x h picture: the stored bit
      of each pixel, inverted again through the palette (0 is black). */
  function FilePicture(file: seq<Byte>, w: nat, h: nat): (p: seq<seq<Bit>>)
    requires |file| >= FileSize(w, h)
    ensures |p| == h
  {
    seq(h, y requires 0 <= y < h => seq(w, x requires 0 <= x < w =>
      PixelInside(w, h, y, x);
      if BitAt(file[RowBytePos(w, y, x / 8)], 7 - x % 8) == 0 then 1 else 0))
  }

  /** The file shows exactly the OTB picture: every pixel the data holds with
      its own colour, and every pixel it does not reach as white. */
  lemma BmpRoundTrip(w: nat, h: nat, bitmapData: seq<Byte>)
    ensures FilePicture(BmpFile(w, h, bitmapData), w, h) == OtbPicture(bitmapData, w, h)
  {
    var f := BmpFile(w, h, bitmapData);
    var got, want := FilePicture(f, w, h), OtbPicture(bitmapData, w, h);
    forall y | 0 <= y < h
      ensures got[y] == want[y]
    {
      forall x | 0 <= x < w
        ensures got[y][x] == want[y][x]
      {
        PixelBitInFile(w, h, bitmapData, y, x);
      }
    }
  }

  /** A buffer `parseOTB` accepts converts to a file of the size the format
      promises, showing the picture's bits; the data holds every pixel. */
  lemma ParsedPictureRoundTrip(data: seq<Byte>)
    requires ParseOtb(data).Ok?
    ensures var img := ParseOtb(data).value;
      && |BmpFile(img.width, img.height, img.bitmapData)| == 62 + CeilDiv(CeilDiv(img.width, 8), 4) * 4 * img.height
      && FilePicture(BmpFile(img.width, img.height, img.bitmapData), img.width, img.height)
         == OtbPicture(img.bitmapData, img.width, img.height)
      && forall i :: 0 <= i < img.width * img.height ==> i / 8 < |img.bitmapData|
  {
    var img := ParseOtb(data).value;
    var w, h, bm := img.width, img.height, img.bitmapData;
    BmpFileSize(w, h, bm);
    BmpRoundTrip(w, h, bm);
    forall i | 0 <= i < w * h
      ensures i / 8 < |bm|
    {
      assert i < 8 * |bm|;
    }
  }

  /** A row whose every pixel is ink in the source is stored as zero bytes
      (palette entry 0, black), padding included. */
  lemma InkRowIsZero(w: nat, h: nat, bitmapData: seq<Byte>, y: nat)
    requires y < h
    requires forall x :: 0 <= x < w ==>
      SrcBitIndex(w, y, x) / 8 < |bitmapData| && SourceBit(bitmapData, SrcBitIndex(w, y, x)) == 1
    ensures forall k :: 0 <= k < PaddedBytesPerRow(w) ==>
      RowBytePos(w, y, k) < |BmpFile(w, h, bitmapData)| && BmpFile(w, h, bitmapData)[RowBytePos(w, y, k)] == 0
  {
    var row := RowBits(w, y, bitmapData);
    forall x | 0 <= x < w
      ensures row[x] == 0
    {
      RowPrefixAt(w, y, w, bitmapData, x);
    }
    forall k | 0 <= k < PaddedBytesPerRow(w)
      ensures RowBytePos(w, y, k) < |BmpFile(w, h, bitmapData)| && BmpFile(w, h, bitmapData)[RowBytePos(w, y, k)] == 0
    {
      PackZeros(Window(row, k, 8));
      PackRowAt(row, PaddedBytesPerRow(w), k);
      BmpFileAt(w, h, bitmapData, y, k);
    }
  }
}
