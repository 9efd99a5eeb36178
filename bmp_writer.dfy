/** `createBMP` (Nokia_OTB_Picture_Viewer/script.js) as the code runs it: a
    zero-filled buffer of the file's size, the header fields stored one after
    another through `DataView` setters at a running offset, the palette stored
    byte by byte, then a loop over rows and pixels that gathers each pixel bit
    into an accumulator and stores the accumulator whenever it is full or the
    row ends. CreateBmp is proved to build exactly the file module Bmp
    describes. */
module BmpWriter {
  import opened Packing
  import opened LittleEndian
  import opened Otb
  import opened Bmp

  /** `view.setUint16(off, v, true)`: the two bytes of v modulo 2^16, least
      significant first. */
  method SetUint16(buf: array<Byte>, off: nat, v: int)
    requires off + 2 <= buf.Length
    modifies buf
    ensures Written(old(buf[..]), buf[..], off, Le16(v))
  {
    var bytes := Le16(v);
    buf[off] := bytes[0];
    buf[off + 1] := bytes[1];
  }

  /** `view.setUint32(off, v, true)`: the four bytes of v modulo 2^32, least
      significant first. */
  method SetUint32(buf: array<Byte>, off: nat, v: int)
    requires off + 4 <= buf.Length
    modifies buf
    ensures Written(old(buf[..]), buf[..], off, Le32(v))
  {
    var bytes := Le32(v);
    buf[off] := bytes[0];
    buf[off + 1] := bytes[1];
    buf[off + 2] := bytes[2];
    buf[off + 3] := bytes[3];
  }

  /** `view.setInt32(off, v, true)`: the two's complement of v in 32 bits is v
      modulo 2^32, so the bytes are those setUint32 stores. */
  method SetInt32(buf: array<Byte>, off: nat, v: int)
    requires off + 4 <= buf.Length
    modifies buf
    ensures Written(old(buf[..]), buf[..], off, Le32(v))
  {
    SetUint32(buf, off, v);
  }

  /** Two writes side by side make one write of both. */
  lemma Chain(s0: seq<Byte>, s1: seq<Byte>, s2: seq<Byte>, off: nat, r1: seq<Byte>, r2: seq<Byte>)
    requires Written(s0, s1, off, r1) && Written(s1, s2, off + |r1|, r2)
    ensures Written(s0, s2, off, r1 + r2)
  {
  }

  /** The 14-byte file header at offset 0. */
  method WriteFileHeader(buf: array<Byte>, w: nat, h: nat, fileSize: nat, dataOffset: nat)
    requires FileHeaderSize <= buf.Length
    requires fileSize == FileSize(w, h) && dataOffset == DataOffset
    modifies buf
    ensures Written(old(buf[..]), buf[..], 0, FileHeader(w, h))
  {
    ghost var s, t := buf[..], buf[..];
    var offset := 0;
    SetUint16(buf, offset, 0x4D42); offset := offset + 2;
    ghost var done := Le16(0x4D42);
    t := buf[..];
    SetUint32(buf, offset, fileSize); offset := offset + 4;
    Chain(s, t, buf[..], 0, done, Le32(fileSize)); done, t := done + Le32(fileSize), buf[..];
    SetUint32(buf, offset, 0); offset := offset + 4;
    Chain(s, t, buf[..], 0, done, Le32(0)); done, t := done + Le32(0), buf[..];
    SetUint32(buf, offset, dataOffset); offset := offset + 4;
    Chain(s, t, buf[..], 0, done, Le32(dataOffset));
  }

  /** The 40-byte info header at offset 14. */
  method WriteInfoHeader(buf: array<Byte>, w: nat, h: nat, imageSize: nat)
    requires DataOffset <= buf.Length
    requires imageSize == ImageSize(w, h)
    modifies buf
    ensures Written(old(buf[..]), buf[..], FileHeaderSize, InfoHeader(w, h))
  {
    ghost var s, t := buf[..], buf[..];
    var offset := FileHeaderSize;
    SetUint32(buf, offset, InfoHeaderSize); offset := offset + 4;
    ghost var done := Le32(InfoHeaderSize);
    t := buf[..];
    SetInt32(buf, offset, w); offset := offset + 4;
    Chain(s, t, buf[..], FileHeaderSize, done, Le32(w)); done, t := done + Le32(w), buf[..];
    SetInt32(buf, offset, -(h as int)); offset := offset + 4;
    Chain(s, t, buf[..], FileHeaderSize, done, Le32(-(h as int))); done, t := done + Le32(-(h as int)), buf[..];
    SetUint16(buf, offset, 1); offset := offset + 2;
    Chain(s, t, buf[..], FileHeaderSize, done, Le16(1)); done, t := done + Le16(1), buf[..];
    SetUint16(buf, offset, 1); offset := offset + 2;
    Chain(s, t, buf[..], FileHeaderSize, done, Le16(1)); done, t := done + Le16(1), buf[..];
    SetUint32(buf, offset, 0); offset := offset + 4;
    Chain(s, t, buf[..], FileHeaderSize, done, Le32(0)); done, t := done + Le32(0), buf[..];
    SetUint32(buf, offset, imageSize); offset := offset + 4;
    Chain(s, t, buf[..], FileHeaderSize, done, Le32(imageSize)); done, t := done + Le32(imageSize), buf[..];
    SetInt32(buf, offset, 2835); offset := offset + 4;
    Chain(s, t, buf[..], FileHeaderSize, done, Le32(2835)); done, t := done + Le32(2835), buf[..];
    SetInt32(buf, offset, 2835); offset := offset + 4;
    Chain(s, t, buf[..], FileHeaderSize, done, Le32(2835)); done, t := done + Le32(2835), buf[..];
    SetUint32(buf, offset, 2); offset := offset + 4;
    Chain(s, t, buf[..], FileHeaderSize, done, Le32(2)); done, t := done + Le32(2), buf[..];
    SetUint32(buf, offset, 2); offset := offset + 4;
    Chain(s, t, buf[..], FileHeaderSize, done, Le32(2));
  }

  /** The palette, one byte at a time, at offset 54. */
  method WriteColorTable(buf: array<Byte>)
    requires DataOffset <= buf.Length
    modifies buf
    ensures Written(old(buf[..]), buf[..], FileHeaderSize + InfoHeaderSize, ColorTable())
  {
    var offset := FileHeaderSize + InfoHeaderSize;
    buf[offset] := 0; offset := offset + 1;
    buf[offset] := 0; offset := offset + 1;
    buf[offset] := 0; offset := offset + 1;
    buf[offset] := 0; offset := offset + 1;
    buf[offset] := 255; offset := offset + 1;
    buf[offset] := 255; offset := offset + 1;
    buf[offset] := 255; offset := offset + 1;
    buf[offset] := 0; offset := offset + 1;
  }

  /** How many bytes of a row the pixel loop has stored once it has taken in
      the first x of w pixels: one per full byte, and the partial last byte
      once the row is done. */
  function StoredBytes(w: nat, x: nat): nat {
    if x == w then BytesPerRow(w) else x / 8
  }

  /** Byte k of a row's region once the first n bytes of the row are stored
      into the zero-filled buffer. */
  function RowSoFar(row: seq<Bit>, k: nat, n: nat): Byte {
    if k < n then RowByte(row, k) else 0
  }

  /** Taking in pixel x stores byte x/8 exactly when that byte is full or the
      row ends. */
  lemma StoredBytesStep(w: nat, x: nat)
    requires x < w
    ensures StoredBytes(w, x) == x / 8
    ensures StoredBytes(w, x + 1) == if x % 8 == 7 || x == w - 1 then x / 8 + 1 else x / 8
    ensures x / 8 < BytesPerRow(w)
  {
    CeilDivIsLeast(w, 8);
  }

  /** Once the row is done, the stored bytes and the zero padding after them
      are the packed row. */
  lemma RowDone(row: seq<Bit>, w: nat, k: nat)
    requires |row| == w && k < PaddedBytesPerRow(w)
    ensures RowSoFar(row, k, StoredBytes(w, w)) == PackRow(row, PaddedBytesPerRow(w))[k]
  {
    StrideIsPadded(w);
    PackRowAt(row, PaddedBytesPerRow(w), k);
    if k >= BytesPerRow(w) {
      PackZeros(Window(row, k, 8));
    }
  }

  /** One pixel taken into the accumulator: holding the first x%8 bits of
      byte x/8, or-ing in bit x gives one bit more, which is the whole packed
      byte once it is full or the row ends; a full byte leaves the next one
      empty. */
  lemma AccumulateStep(row: seq<Bit>, x: nat, acc: nat)
    requires x < |row| && acc == PartialByte(row, x / 8, x % 8)
    ensures Or(acc, ShiftLeft(row[x], 7 - x % 8)) == PartialByte(row, x / 8, x % 8 + 1)
    ensures x % 8 == 7 || x == |row| - 1 ==> PartialByte(row, x / 8, x % 8 + 1) == RowByte(row, x / 8)
    ensures x % 8 == 7 ==> (x + 1) / 8 == x / 8 + 1 && (x + 1) % 8 == 0 && PartialByte(row, x / 8 + 1, 0) == 0
    ensures x % 8 != 7 ==> (x + 1) / 8 == x / 8 && (x + 1) % 8 == x % 8 + 1
  {
    PartialByteNext(row, x / 8, x % 8);
    if x % 8 == 7 || x == |row| - 1 {
      PartialByteDone(row, x / 8, x % 8 + 1);
    }
    EmptyByte(row, x / 8 + 1);
  }

  /** The bit the loop computes for pixel x of row y is the stored bit of the
      row. */
  lemma PixelBitIsRowBit(w: nat, y: nat, x: nat, bitmapData: seq<Byte>)
    requires x < w
    ensures RowBits(w, y, bitmapData)[x] == OutputBit(w, y, x, bitmapData)
  {
    RowPrefixAt(w, y, w, bitmapData, x);
  }

  /** The bit `createBMP` stores for pixel (x, y): the source bit at
      `y * width + x`, most significant bit of each byte first, inverted, or 1
      when the source has no byte for it. */
  method ReadPixel(width: nat, y: nat, x: nat, bitmapData: seq<Byte>) returns (pixelBit: Bit)
    ensures pixelBit == OutputBit(width, y, x, bitmapData)
    ensures pixelBit == 0 <==> SrcBitIndex(width, y, x) / 8 < |bitmapData| && SourceBit(bitmapData, SrcBitIndex(width, y, x)) == 1
  {
    var srcBitIndex := y * width + x;
    var srcByteIndex := srcBitIndex / 8;
    var srcBitPosition := 7 - srcBitIndex % 8;
    pixelBit := 0;
    if srcByteIndex < |bitmapData| {
      pixelBit := BitAt(bitmapData[srcByteIndex], srcBitPosition);
      pixelBit := if pixelBit != 0 then 0 else 1;
    } else {
      pixelBit := 1; // missing data is white
    }
  }

  /** `after` is `before` with the bytes r written from offset `off`. */
  ghost predicate Written(before: seq<Byte>, after: seq<Byte>, off: nat, r: seq<Byte>) {
    && |after| == |before| && off + |r| <= |before|
    && forall i :: 0 <= i < |after| ==> after[i] == if off <= i < off + |r| then r[i - off] else before[i]
  }

  /** The row's region of the buffer holds the first n packed bytes of the
      row followed by zeros. */
  ghost predicate RowRegion(s: seq<Byte>, rowOffset: nat, paddedBytesPerRow: nat, row: seq<Bit>, n: nat) {
    && rowOffset + paddedBytesPerRow <= |s|
    && forall i :: rowOffset <= i < rowOffset + paddedBytesPerRow ==> s[i] == RowSoFar(row, i - rowOffset, n)
  }

  /** `after` differs from `before` only inside the region of len bytes at `off`. */
  ghost predicate SameOutside(before: seq<Byte>, after: seq<Byte>, off: nat, len: nat) {
    && |after| == |before|
    && forall i :: 0 <= i < |after| && !(off <= i < off + len) ==> after[i] == before[i]
  }

  /** Storing byte n of the row right after the n stored ones. */
  lemma StoreRowByte(s: seq<Byte>, rowOffset: nat, paddedBytesPerRow: nat, row: seq<Bit>, n: nat)
    requires RowRegion(s, rowOffset, paddedBytesPerRow, row, n) && n < paddedBytesPerRow
    ensures RowRegion(s[rowOffset + n := RowByte(row, n)], rowOffset, paddedBytesPerRow, row, n + 1)
    ensures SameOutside(s, s[rowOffset + n := RowByte(row, n)], rowOffset, paddedBytesPerRow)
  {
  }

  /** The body of `createBMP`'s pixel loop for pixel x of row y: read the
      pixel's bit, or it into `currentByte` at position `7 - bitsInByte`, and
      store the byte at `rowOffset + x/8` once it is full or the row ends. */
  method TakePixel(bmp: array<Byte>, rowOffset: nat, paddedBytesPerRow: nat, width: nat, y: nat, x: nat,
                   bitmapData: seq<Byte>, currentByte: nat, bitsInByte: nat)
    returns (nextByte: nat, nextBits: nat)
    requires paddedBytesPerRow == PaddedBytesPerRow(width) && x < width
    requires bitsInByte == x % 8 && currentByte == PartialByte(RowBits(width, y, bitmapData), x / 8, x % 8)
    requires RowRegion(bmp[..], rowOffset, paddedBytesPerRow, RowBits(width, y, bitmapData), StoredBytes(width, x))
    modifies bmp
    ensures RowRegion(bmp[..], rowOffset, paddedBytesPerRow, RowBits(width, y, bitmapData), StoredBytes(width, x + 1))
    ensures x + 1 < width ==>
      nextBits == (x + 1) % 8 && nextByte == PartialByte(RowBits(width, y, bitmapData), (x + 1) / 8, (x + 1) % 8)
    ensures SameOutside(old(bmp[..]), bmp[..], rowOffset, paddedBytesPerRow)
  {
    ghost var row := RowBits(width, y, bitmapData);
    StrideIsPadded(width);
    var pixelBit := ReadPixel(width, y, x, bitmapData);
    PixelBitIsRowBit(width, y, x, bitmapData);
    AccumulateStep(row, x, currentByte);
    StoredBytesStep(width, x);
    nextByte := Or(currentByte, ShiftLeft(pixelBit, 7 - bitsInByte));
    nextBits := bitsInByte + 1;
    // nextBits never exceeds 8, so the source's `(x - 1) / 8` arm is never taken.
    if nextBits == 8 || x == width - 1 {
      var k := x / 8;
      assert nextByte == RowByte(row, k);
      ghost var before := bmp[..];
      bmp[rowOffset + k] := nextByte;
      assert bmp[..] == before[rowOffset + k := RowByte(row, k)];
      StoreRowByte(before, rowOffset, paddedBytesPerRow, row, k);
      nextByte := 0;
      nextBits := 0;
    }
  }

  /** One pass of `createBMP`'s row loop: the pixels of row y, gathered into
      `currentByte` most significant bit first and stored at `rowOffset` plus
      the byte's index in the row whenever eight bits are in or the row ends.
      The row's padding bytes are left as they are (zero). */
  method WriteRow(bmp: array<Byte>, rowOffset: nat, paddedBytesPerRow: nat, width: nat, y: nat, bitmapData: seq<Byte>)
    requires paddedBytesPerRow == PaddedBytesPerRow(width)
    requires rowOffset + paddedBytesPerRow <= bmp.Length
    requires forall i :: rowOffset <= i < rowOffset + paddedBytesPerRow ==> bmp[i] == 0
    modifies bmp
    ensures Written(old(bmp[..]), bmp[..], rowOffset, Row(width, y, bitmapData))
  {
    ghost var row := RowBits(width, y, bitmapData);
    var currentByte: nat := 0;
    var bitsInByte: nat := 0;
    EmptyByte(row, 0);
    var x := 0;
    while x < width
      invariant 0 <= x <= width
      invariant x < width ==> bitsInByte == x % 8 && currentByte == PartialByte(row, x / 8, x % 8)
      invariant RowRegion(bmp[..], rowOffset, paddedBytesPerRow, row, StoredBytes(width, x))
      invariant SameOutside(old(bmp[..]), bmp[..], rowOffset, paddedBytesPerRow)
    {
      currentByte, bitsInByte := TakePixel(bmp, rowOffset, paddedBytesPerRow, width, y, x, bitmapData, currentByte, bitsInByte);
      x := x + 1;
    }
    forall i | rowOffset <= i < rowOffset + paddedBytesPerRow
      ensures bmp[i] == Row(width, y, bitmapData)[i - rowOffset]
    {
      RowDone(row, width, i - rowOffset);
    }
  }

  /** The buffer once the preamble and the first y rows are in place, the
      rest still zero. */
  ghost predicate Filled(s: seq<Byte>, w: nat, h: nat, y: nat, bitmapData: seq<Byte>) {
    && |s| == FileSize(w, h)
    && ImageSize(w, y) <= ImageSize(w, h)
    && s[..DataOffset + ImageSize(w, y)] == Preamble(w, h) + PixelData(w, y, bitmapData)
    && forall i :: DataOffset + ImageSize(w, y) <= i < |s| ==> s[i] == 0
  }

  /** The zero-filled buffer with the three parts of the preamble written. */
  lemma PreambleFilled(s0: seq<Byte>, s1: seq<Byte>, s2: seq<Byte>, s3: seq<Byte>, w: nat, h: nat, bitmapData: seq<Byte>)
    requires |s0| == FileSize(w, h) && forall i :: 0 <= i < |s0| ==> s0[i] == 0
    requires Written(s0, s1, 0, FileHeader(w, h))
    requires Written(s1, s2, FileHeaderSize, InfoHeader(w, h))
    requires Written(s2, s3, FileHeaderSize + InfoHeaderSize, ColorTable())
    ensures Filled(s3, w, h, 0, bitmapData)
  {
    Chain(s0, s1, s2, 0, FileHeader(w, h), InfoHeader(w, h));
    Chain(s0, s2, s3, 0, FileHeader(w, h) + InfoHeader(w, h), ColorTable());
    PreambleParts(w, h);
    assert s3[..DataOffset] == Preamble(w, h);
  }

  /** Writing r right after a filled prefix p + d, into a zero tail, extends
      the prefix by r and leaves the rest of the tail zero. */
  lemma WrittenAfter(before: seq<Byte>, after: seq<Byte>, p: seq<Byte>, d: seq<Byte>, r: seq<Byte>)
    requires |p| + |d| <= |before| && before[..|p| + |d|] == p + d
    requires forall i :: |p| + |d| <= i < |before| ==> before[i] == 0
    requires Written(before, after, |p| + |d|, r)
    ensures after[..|p| + |d| + |r|] == p + (d + r)
    ensures forall i :: |p| + |d| + |r| <= i < |after| ==> after[i] == 0
  {
    assert forall i :: 0 <= i < |p| + |d| ==> after[i] == before[i];
  }

  /** Writing row y after the first y rows fills y + 1 rows. */
  lemma RowFilled(before: seq<Byte>, after: seq<Byte>, w: nat, h: nat, y: nat, bitmapData: seq<Byte>)
    requires y < h && Filled(before, w, h, y, bitmapData)
    requires Written(before, after, DataOffset + ImageSize(w, y), Row(w, y, bitmapData))
    ensures Filled(after, w, h, y + 1, bitmapData)
  {
    ImageSizeGrows(w, y, h);
    WrittenAfter(before, after, Preamble(w, h), PixelData(w, y, bitmapData), Row(w, y, bitmapData));
  }

  /** The header fields and the palette, written into the zero-filled buffer
      in the order `createBMP` writes them. */
  method WritePreamble(bmp: array<Byte>, width: nat, height: nat, fileSize: nat, dataOffset: nat, imageSize: nat,
                       ghost bitmapData: seq<Byte>)
    requires bmp.Length == fileSize == FileSize(width, height)
    requires dataOffset == DataOffset && imageSize == ImageSize(width, height)
    requires forall i :: 0 <= i < bmp.Length ==> bmp[i] == 0
    modifies bmp
    ensures Filled(bmp[..], width, height, 0, bitmapData)
  {
    ghost var s0 := bmp[..];
    WriteFileHeader(bmp, width, height, fileSize, dataOffset);
    ghost var s1 := bmp[..];
    WriteInfoHeader(bmp, width, height, imageSize);
    ghost var s2 := bmp[..];
    WriteColorTable(bmp);
    PreambleFilled(s0, s1, s2, bmp[..], width, height, bitmapData);
  }

  /** `createBMP(width, height, bitmapData)`. */
  method CreateBmp(width: nat, height: nat, bitmapData: seq<Byte>) returns (bmp: array<Byte>)
    ensures fresh(bmp)
    ensures bmp[..] == BmpFile(width, height, bitmapData)
  {
    var bytesPerRow := CeilDiv(width, 8);
    var paddedBytesPerRow := CeilDiv(bytesPerRow, 4) * 4;
    var imageSize := paddedBytesPerRow * height;
    assert imageSize == ImageSize(width, height) by {
      ImageSizeIsProduct(width, height);
    }
    var fileSize := FileHeaderSize + InfoHeaderSize + ColorTableSize + imageSize;
    var dataOffset := FileHeaderSize + InfoHeaderSize + ColorTableSize;
    bmp := new Byte[fileSize](_ => 0);
    WritePreamble(bmp, width, height, fileSize, dataOffset, imageSize, bitmapData);
    var offset := dataOffset;

    var y: nat := 0;
    while y < height
      invariant y <= height
      invariant Filled(bmp[..], width, height, y, bitmapData)
    {
      assert y * paddedBytesPerRow == ImageSize(width, y) by {
        ImageSizeIsProduct(width, y);
      }
      var rowOffset := offset + y * paddedBytesPerRow;
      FillRow(bmp, rowOffset, paddedBytesPerRow, width, height, y, bitmapData);
      y := y + 1;
    }
    assert bmp[..] == bmp[..DataOffset + ImageSize(width, height)];
  }

  /** One pass of the `y` loop: the row at its offset, after the rows before it. */
  method FillRow(bmp: array<Byte>, rowOffset: nat, paddedBytesPerRow: nat, width: nat, height: nat, y: nat,
                 bitmapData: seq<Byte>)
    requires y < height && paddedBytesPerRow == PaddedBytesPerRow(width)
    requires rowOffset == DataOffset + ImageSize(width, y)
    requires Filled(bmp[..], width, height, y, bitmapData)
    modifies bmp
    ensures Filled(bmp[..], width, height, y + 1, bitmapData)
  {
    ImageSizeGrows(width, y, height);
    ghost var before := bmp[..];
    WriteRow(bmp, rowOffset, paddedBytesPerRow, width, y, bitmapData);
    RowFilled(before, bmp[..], width, height, y, bitmapData);
  }
}
