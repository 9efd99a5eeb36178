# Nokia OTB viewer and WS2812B LED controller, modelled in Dafny

This project models the logic of two small browser utilities.

**The Nokia OTB Picture Viewer** (`Nokia_OTB_Picture_Viewer/script.js`) turns a
Nokia Over-The-Air bitmap into a Windows BMP file:

- `parseOTB` reads the 4-byte OTB header (unused byte, width, height, colour
  depth) and rejects a file that is too small, has a zero dimension, carries
  fewer bitmap bytes than `ceil(width * height / 8)`, or is not 1-bit.
- `createBMP` writes a 62-byte preamble: the 14-byte file header, the 40-byte
  info header with a negative height (top-down rows), and a two-entry palette.
  It then writes one row per image line, packed 8 pixels per byte with the most
  significant bit first, with the OTB ink bit inverted and each row padded to a
  multiple of 4 bytes.
- The download link replaces the file's extension with `.bmp`.

**The WS2812B LED controller** (`ws2812b-led-control/script.js`) drives an LED
strip, ring or matrix over a serial port:

- The `LEDController` class keeps a colour per LED, the LED count, a brightness,
  an arrangement with its list of animation patterns, the running animation,
  and the serial writer.
- Colours come from `#rrggbb` strings (`hexToRgb`). They are scaled by the
  brightness (`applyBrightness`) and sent as one line of the form
  `index:r,g,b;index:r,g,b…` followed by CR LF (`sendLEDData`, `sendCommand`).
- Each pattern computes a frame of colours from a frame number and the LED
  count. `getPatterns` chooses the list of patterns for the arrangement.

The model is organised as follows:

- `Text` holds decimal numerals and join/split.
- `LittleEndian` holds the DataView field encodings.
- `Packing` packs bits into bytes.
- `Otb` models `parseOTB` and the download name.
- `Bmp` is the specification of the file `createBMP` returns. `BmpWriter` is the
  imperative `createBMP`, which writes into an `array`.
- `LedColor` models colours, brightness and the serial frame. It also has a
  decoder for the frame, which is the receiving side's reading of it.
- `LedPatterns` holds the integer-arithmetic patterns. `PatternCatalog` holds
  `getPatterns` and the frame dispatch.
- `LedControl` holds the controller class. Its fields are updated in place by
  its methods, and the lines sent to the port are kept in a log.

Bytes are integers 0..255, as the JavaScript numbers in a `Uint8Array` are.
Bit operations (`>>`, `&`, `|`, `<<`) are defined digit by digit.

A file of at most 4 bytes is rejected as too small before any header check
(`data.length <= 4`, line 24), even when its header describes a 1x1 picture;
`Otb.ParseExamples` states this.

Other details the model follows:

- **The palette.** The comments at lines 171 and 177 call palette entry 0 white
  and entry 1 black, but the bytes written are 0,0,0 for entry 0 and 255,255,255
  for entry 1. The model writes the bytes (`Bmp.PaletteBytes`). So an OTB ink bit
  (1) becomes a BMP 0 bit, which indexes the black entry.
- **The unused arm at line 208.** The `(x - 1) / 8` arm of the row-byte index is
  never taken, because `bitsInByte <= 8` always holds there. The model stores at
  `x / 8`.
- **The arrangement.** `initializeLEDs` always puts the arrangement back to
  `'ring'` (line 203). So `updateLayout` loads the ring patterns whatever was
  selected. `LedControl.LedController.UpdateLayout` states exactly that.

## Model

| member | source | states |
|---|---|---|
| Otb.CeilDivIsLeast | Nokia_OTB_Picture_Viewer/script.js:40-41 | `Math.ceil(a / d)` is the least multiple count of d reaching a |
| Otb.ParseOtb | Nokia_OTB_Picture_Viewer/script.js:21-51 | the parse succeeds exactly for a file longer than 4 bytes with non-zero width and height, colour depth 1 and at least ceil(w*h/8) bitmap bytes; the image is bytes 1, 2 and the bytes from 4 on |
| Otb.ParseReportsFirstViolation | Nokia_OTB_Picture_Viewer/script.js:24-51 | the checks run in source order and the first failing one is the error reported; no violation iff success |
| Otb.ParseIgnoresFirstByte | Nokia_OTB_Picture_Viewer/script.js:29-32 | header byte 0 never affects the outcome |
| Otb.InsufficientDataReportsCounts | Nokia_OTB_Picture_Viewer/script.js:40-46 | the short-data error carries the bytes present (length − 4) and the larger number of bytes w*h bits need |
| Otb.ParseExamples | Nokia_OTB_Picture_Viewer/script.js:24-51 | one concrete file per outcome, including a 4-byte file being "too small" |
| Otb.ErrorMessage | Nokia_OTB_Picture_Viewer/script.js:24-50 | every rejection is reported with a non-empty text |
| Otb.ErrorMessageIdentifies | Nokia_OTB_Picture_Viewer/script.js:24-50 | two rejections have the same text iff they are the same rejection, counts included |
| Otb.ShortDataMessageCounts | Nokia_OTB_Picture_Viewer/script.js:44 | the short-data text carries both counts: equal texts have equal expected and actual byte counts |
| Otb.ErrorKindsDiffer | Nokia_OTB_Picture_Viewer/script.js:24-50 | rejections of different kinds never share a text |
| Otb.MessageHasKey | Nokia_OTB_Picture_Viewer/script.js:24-50 | character 18 of each text depends only on the kind of rejection and differs between kinds |
| Otb.ExtensionUnique | Nokia_OTB_Picture_Viewer/script.js:90 | the anchored pattern `\.[^/.]+$` can match at one position at most |
| Otb.ScanExtension | Nokia_OTB_Picture_Viewer/script.js:90 | the backwards scan finds a match position, or there is none before its start |
| Otb.ExtensionStart | Nokia_OTB_Picture_Viewer/script.js:90 | the match position if the pattern matches, otherwise none exists |
| Otb.DownloadName | Nokia_OTB_Picture_Viewer/script.js:89-91 | with an extension, the name up to its dot plus ".bmp"; without one, the whole name plus ".bmp" |
| Otb.DownloadNameIdempotent | Nokia_OTB_Picture_Viewer/script.js:89-91 | converting a converted name again gives the same name |
| Otb.DownloadNameExamples | Nokia_OTB_Picture_Viewer/script.js:89-91 | "1.otb" gives "1.bmp", a name with several dots keeps all but its last extension, and a path dot or a trailing dot is not an extension |
| LittleEndian.Recompose32 | Nokia_OTB_Picture_Viewer/script.js:153-168 | the four little-endian bytes of a 32-bit value put it back together |
| LittleEndian.Le16RoundTrip | Nokia_OTB_Picture_Viewer/script.js:161-162 | `setUint16` then `getUint16` gives the value modulo 2^16 |
| LittleEndian.Le32RoundTrip | Nokia_OTB_Picture_Viewer/script.js:153-155 | `setUint32` then `getUint32` gives the value modulo 2^32 |
| LittleEndian.I32RoundTrip | Nokia_OTB_Picture_Viewer/script.js:159-160 | `setInt32` then `getInt32` gives back any signed 32-bit value |
| LittleEndian.ReadAt | Nokia_OTB_Picture_Viewer/script.js:146 | a field read at an offset depends only on the four bytes there |
| Packing.OrBits | Nokia_OTB_Picture_Viewer/script.js:204 | each binary digit of `a \| b` is set iff it is set in a or in b |
| Packing.OrIsAdd | Nokia_OTB_Picture_Viewer/script.js:204 | or-ing in a power of two whose digit is clear adds it |
| Packing.PackBits | Nokia_OTB_Picture_Viewer/script.js:204 | n packed bits stay below 2^n |
| Packing.BitOfPack | Nokia_OTB_Picture_Viewer/script.js:204 | bit j of a packed group is binary digit n−1−j: the first pixel is the most significant |
| Packing.SetBit | Nokia_OTB_Picture_Viewer/script.js:204 | setting a clear bit adds its weight `bit << (n−1−j)` |
| Packing.PackZeros | Nokia_OTB_Picture_Viewer/script.js:187-188 | all-zero bits pack to the zero byte |
| Packing.PackRowAt | Nokia_OTB_Picture_Viewer/script.js:185-212 | byte k of a packed row is the row's byte k |
| Packing.PackRowPrefix | Nokia_OTB_Picture_Viewer/script.js:137-139 | padding a row to a longer stride keeps its first bytes |
| Packing.EmptyByte | Nokia_OTB_Picture_Viewer/script.js:187-188 | a fresh accumulator is 0 |
| Packing.PartialByteNext | Nokia_OTB_Picture_Viewer/script.js:204-205 | `currentByte \|= bit << (7 − bitsInByte)` takes in the next pixel of the byte |
| Packing.PartialByteDone | Nokia_OTB_Picture_Viewer/script.js:207 | after 8 pixels or at the row's end the accumulator is the whole row byte, zero-padded |
| Packing.RowByteBit | Nokia_OTB_Picture_Viewer/script.js:204 | bit 7−j of row byte k is pixel 8k+j, or 0 past the row |
| Packing.PackRowBit | Nokia_OTB_Picture_Viewer/script.js:185-212 | pixel x of a packed row sits at bit 7 − x%8 of byte x/8; padding bits are 0 |
| Bmp.ImageSizeIsProduct | Nokia_OTB_Picture_Viewer/script.js:140 | the image size is `paddedBytesPerRow * height` |
| Bmp.ImageSizeGrows | Nokia_OTB_Picture_Viewer/script.js:185-186 | row y lies wholly inside the first n > y rows |
| Bmp.StrideIsPadded | Nokia_OTB_Picture_Viewer/script.js:138-139 | the stride is a multiple of 4, fewer than 4 bytes above the row's bytes, which are the fewest that hold w bits |
| Bmp.ColorTable | Nokia_OTB_Picture_Viewer/script.js:170-181 | the palette has 8 bytes |
| Bmp.FieldAt | Nokia_OTB_Picture_Viewer/script.js:151-168 | every header byte lies in a 2- or 4-byte field |
| Bmp.FileHeaderAt | Nokia_OTB_Picture_Viewer/script.js:151-155 | the file header written field by field agrees with the field layout byte by byte |
| Bmp.InfoHeaderAt | Nokia_OTB_Picture_Viewer/script.js:157-168 | the info header written field by field agrees with the field layout byte by byte |
| Bmp.PreambleParts | Nokia_OTB_Picture_Viewer/script.js:149-181 | the 62 preamble bytes are the file header, the info header and the palette in that order |
| Bmp.PreambleAt | Nokia_OTB_Picture_Viewer/script.js:149-181 | preamble byte i is the byte of the field covering i |
| Bmp.RowPrefixAt | Nokia_OTB_Picture_Viewer/script.js:190-202 | pixel x of a row holds the inverted source bit, or 1 when the source has no byte for it |
| Bmp.Row | Nokia_OTB_Picture_Viewer/script.js:185-212 | a row is one stride of bytes |
| Bmp.PixelData | Nokia_OTB_Picture_Viewer/script.js:183-213 | n rows are `ImageSize(w, n)` bytes |
| Bmp.BmpFile | Nokia_OTB_Picture_Viewer/script.js:142-145 | the file has `fileSize` bytes |
| Bmp.BmpFileSize | Nokia_OTB_Picture_Viewer/script.js:138-142 | the file has 62 + ceil(ceil(w/8)/4)*4*h bytes |
| Bmp.BmpFileParts | Nokia_OTB_Picture_Viewer/script.js:183-186 | the file is the preamble followed by the pixel data at `dataOffset` |
| Bmp.PixelDataAt | Nokia_OTB_Picture_Viewer/script.js:186 | byte k of row y sits at `y * paddedBytesPerRow + k` in the pixel data |
| Bmp.PixelDataPrefix | Nokia_OTB_Picture_Viewer/script.js:185 | writing later rows never changes earlier ones |
| Bmp.BmpFileAt | Nokia_OTB_Picture_Viewer/script.js:186-208 | byte k of row y sits at `offset + y * paddedBytesPerRow + k` in the file |
| Bmp.RowsDisjoint | Nokia_OTB_Picture_Viewer/script.js:186 | different (row, byte) pairs go to different positions |
| Bmp.BmpFileBit | Nokia_OTB_Picture_Viewer/script.js:185-212 | bit 7 − x%8 of row byte x/8 is pixel x's stored bit for x < w, and 0 in the padding |
| Bmp.PixelBitInFile | Nokia_OTB_Picture_Viewer/script.js:191-204 | a stored pixel bit is 0 exactly when the OTB bit at `y * width + x` exists and is 1 |
| Bmp.RowPaddingIsZero | Nokia_OTB_Picture_Viewer/script.js:137-145 | every padding bit of every row is 0 |
| Bmp.Field16 | Nokia_OTB_Picture_Viewer/script.js:161-162 | a 16-bit header field reads back as its value modulo 2^16 |
| Bmp.Field32 | Nokia_OTB_Picture_Viewer/script.js:153-168 | a 32-bit header field reads back as its value modulo 2^32 |
| Bmp.FieldSpan | Nokia_OTB_Picture_Viewer/script.js:151-168 | the fields do not overlap |
| Bmp.FieldReads | Nokia_OTB_Picture_Viewer/script.js:151-168 | every header field reads back as the value written |
| Bmp.FileHeaderFields | Nokia_OTB_Picture_Viewer/script.js:151-155 | "BM" (0x4D42), the file size modulo 2^32, reserved 0, data offset 62 |
| Bmp.HeightField | Nokia_OTB_Picture_Viewer/script.js:160 | the height field reads as −height, so rows run top-down |
| Bmp.InfoHeaderFields | Nokia_OTB_Picture_Viewer/script.js:158-162 | header size 40, the width, −height, 1 plane, 1 bit per pixel |
| Bmp.InfoHeaderLayout | Nokia_OTB_Picture_Viewer/script.js:163-168 | no compression, the image size modulo 2^32, 2835 pixels per metre both ways, 2 colours used and important |
| Bmp.PaletteBytes | Nokia_OTB_Picture_Viewer/script.js:170-181 | the palette is 0,0,0,0 then 255,255,255,0 |
| Bmp.OtbPicture | Nokia_OTB_Picture_Viewer/script.js:191-197 | the OTB picture has h rows |
| Bmp.PixelInside | Nokia_OTB_Picture_Viewer/script.js:186-208 | every pixel's byte lies inside the file |
| Bmp.FilePicture | Nokia_OTB_Picture_Viewer/script.js:183-213 | the picture read from a file has h rows |
| Bmp.BmpRoundTrip | Nokia_OTB_Picture_Viewer/script.js:129-216 | reading the pixels back out of the file, with the ink inversion undone, gives the OTB picture (missing bytes read as no ink) |
| Bmp.ParsedPictureRoundTrip | Nokia_OTB_Picture_Viewer/script.js:21-66 | for every accepted file, the converted file has the stated size, every pixel has a source byte, and the picture survives the conversion |
| Bmp.InkRowIsZero | Nokia_OTB_Picture_Viewer/script.js:195-210 | a line that is all ink becomes all-zero bytes, padding included |
| BmpWriter.SetUint16 | Nokia_OTB_Picture_Viewer/script.js:161-162 | the two little-endian bytes of the value land at the offset, nothing else changes |
| BmpWriter.SetUint32 | Nokia_OTB_Picture_Viewer/script.js:153-155 | the four little-endian bytes of the value land at the offset, nothing else changes |
| BmpWriter.SetInt32 | Nokia_OTB_Picture_Viewer/script.js:159-160 | the two's-complement bytes land at the offset, nothing else changes |
| BmpWriter.Chain | Nokia_OTB_Picture_Viewer/script.js:149-168 | two adjacent writes make one write of both byte strings |
| BmpWriter.WriteFileHeader | Nokia_OTB_Picture_Viewer/script.js:151-155 | bytes 0..13 become the file header, nothing else changes |
| BmpWriter.WriteInfoHeader | Nokia_OTB_Picture_Viewer/script.js:157-168 | bytes 14..53 become the info header, nothing else changes |
| BmpWriter.WriteColorTable | Nokia_OTB_Picture_Viewer/script.js:170-181 | bytes 54..61 become the palette, nothing else changes |
| BmpWriter.StoredBytesStep | Nokia_OTB_Picture_Viewer/script.js:207-208 | a byte is stored after every 8th pixel and after the last pixel |
| BmpWriter.RowDone | Nokia_OTB_Picture_Viewer/script.js:185-212 | once the row ends, stored bytes plus the zero-filled rest are the padded packed row |
| BmpWriter.AccumulateStep | Nokia_OTB_Picture_Viewer/script.js:204-210 | one pass of the pixel loop body keeps the accumulator at the partial byte and resets it at byte boundaries |
| BmpWriter.PixelBitIsRowBit | Nokia_OTB_Picture_Viewer/script.js:190-202 | pixel x of the row bits is the bit the loop computes |
| BmpWriter.ReadPixel | Nokia_OTB_Picture_Viewer/script.js:191-202 | the pixel bit is 0 exactly when the OTB bit exists and is 1 (ink) |
| BmpWriter.StoreRowByte | Nokia_OTB_Picture_Viewer/script.js:208 | storing the next row byte extends the stored prefix, only inside the row |
| BmpWriter.TakePixel | Nokia_OTB_Picture_Viewer/script.js:190-211 | one pixel taken in keeps the row's stored bytes and the accumulator in step, writing only inside the row |
| BmpWriter.WriteRow | Nokia_OTB_Picture_Viewer/script.js:185-212 | the zero-filled row region becomes `Row(width, y)`, nothing else changes |
| BmpWriter.PreambleFilled | Nokia_OTB_Picture_Viewer/script.js:145-181 | the zero buffer with the three header parts written holds the preamble and zeros |
| BmpWriter.WrittenAfter | Nokia_OTB_Picture_Viewer/script.js:186 | a write right after a filled prefix extends it |
| BmpWriter.RowFilled | Nokia_OTB_Picture_Viewer/script.js:185-213 | writing row y after y rows leaves y+1 rows filled and zeros after |
| BmpWriter.WritePreamble | Nokia_OTB_Picture_Viewer/script.js:149-181 | a zero buffer of the file size holds the preamble and zeros |
| BmpWriter.FillRow | Nokia_OTB_Picture_Viewer/script.js:185-213 | one pass of the `y` loop takes y filled rows to y+1 |
| BmpWriter.CreateBmp | Nokia_OTB_Picture_Viewer/script.js:129-216 | a fresh array equal to `BmpFile(width, height, bitmapData)` |
| Text.DigitChar | ws2812b-led-control/script.js:356 | a digit 0..9 is printed as a digit character |
| Text.Decimal | ws2812b-led-control/script.js:356 | a non-negative integer prints as digits, without a leading zero |
| Text.DecimalRoundTrip | ws2812b-led-control/script.js:356 | a printed numeral reads back as the number |
| Text.Split | ws2812b-led-control/script.js:357 | splitting gives at least one piece |
| Text.SplitWithoutSeparator | ws2812b-led-control/script.js:357 | a separator-free string splits into itself |
| Text.SplitAtFirstSeparator | ws2812b-led-control/script.js:357 | the first piece ends at the first separator |
| Text.SplitJoin | ws2812b-led-control/script.js:357 | splitting a `join` gives the parts back when no part holds the separator |
| Text.JoinChars | ws2812b-led-control/script.js:357 | a `join` holds no character that is neither in a part nor the separator |
| LedColor.HexValue | ws2812b-led-control/script.js:338-340 | a hex digit's value is below 16 |
| LedColor.HexDigits | ws2812b-led-control/script.js:336 | a match carries six hex digits, with or without the `#` |
| LedColor.HexToRgb | ws2812b-led-control/script.js:335-342 | black when the pattern does not match; otherwise each channel is the value of its two hex digits |
| LedColor.LowerHexDigit | ws2812b-led-control/script.js:336 | each value below 16 has a digit that reads back as it |
| LedColor.ToHex | ws2812b-led-control/script.js:270 | the picker's form: `#` and six characters |
| LedColor.HexRoundTrip | ws2812b-led-control/script.js:335-342 | every colour written as `#rrggbb`, with or without `#`, reads back as itself |
| LedColor.Upper | ws2812b-led-control/script.js:336 | upper-casing keeps the length and maps each character |
| LedColor.HexCaseInsensitive | ws2812b-led-control/script.js:336 | the `i` flag: case changes neither acceptance nor the colour |
| LedColor.HexExamples | ws2812b-led-control/script.js:335-342 | `#ff8000` and `FF8000` give (255,128,0); short, non-hex or empty input gives black |
| LedColor.Scale | ws2812b-led-control/script.js:344-350 | a scaled channel never exceeds the original, is unchanged at brightness 255 and 0 at brightness 0 |
| LedColor.ApplyBrightness | ws2812b-led-control/script.js:344-351 | the same for each of r, g, b: never brighter, identity at 255, black at 0 |
| LedColor.ScaleMonotone | ws2812b-led-control/script.js:344-350 | a higher brightness never gives a darker channel |
| LedColor.ApplyBrightnessMonotone | ws2812b-led-control/script.js:344-351 | a higher brightness never gives a darker colour in any channel |
| LedColor.FrameEntries | ws2812b-led-control/script.js:354-357 | one entry per LED, entry i being `i:r,g,b` of LED i's colour at the brightness |
| LedColor.FrameCommand | ws2812b-led-control/script.js:353-359 | with no LEDs the command is empty |
| LedColor.Framed | ws2812b-led-control/script.js:142 | the line written is the command followed by CR LF |
| LedColor.DecodeFrame | ws2812b-led-control/script.js:357 | one decoded entry per `;`-separated piece |
| LedColor.SplitChannels | ws2812b-led-control/script.js:356 | `r,g,b` of three numerals splits into the three |
| LedColor.SplitIndex | ws2812b-led-control/script.js:356 | `i:rest` splits at the colon into the two |
| LedColor.DecodeFields | ws2812b-led-control/script.js:356 | an entry of four numerals decodes to their values |
| LedColor.ChannelsOf | ws2812b-led-control/script.js:356 | three numerals below 256 parse as a colour |
| LedColor.DecodeSplit | ws2812b-led-control/script.js:356 | an index numeral and parsed channels decode as an entry |
| LedColor.EntryRoundTrip | ws2812b-led-control/script.js:356 | an entry holds no `;` and decodes to its index and colour |
| LedColor.FrameRoundTrip | ws2812b-led-control/script.js:353-359 | the command decodes, entry by entry, to each LED's index and brightness-scaled colour |
| LedColor.FrameIsOneLine | ws2812b-led-control/script.js:353-359 | the command holds no CR or LF, so it is exactly one line on the wire |
| LedColor.EntryIsPrintable | ws2812b-led-control/script.js:356 | no entry holds CR or LF |
| LedColor.FrameExample | ws2812b-led-control/script.js:353-359 | two LEDs at full brightness give `0:255,0,10;1:0,0,0` |
| LedPatterns.ModStep | ws2812b-led-control/script.js:551 | one frame later `frame % n` moves on by one, wrapping to 0 |
| LedPatterns.ModPeriod | ws2812b-led-control/script.js:551 | n frames later `frame % n` is back where it was |
| LedPatterns.JsRem | ws2812b-led-control/script.js:577 | JavaScript's `%`: the remainder has the dividend's sign and is below n in magnitude |
| LedPatterns.ScannerCentre | ws2812b-led-control/script.js:427 | the beam centre lies in 0..count |
| LedPatterns.ScannerLevel | ws2812b-led-control/script.js:430 | an LED is lit iff it is within 5 of the centre |
| LedPatterns.Scanner | ws2812b-led-control/script.js:422-434 | one colour per LED, red only |
| LedPatterns.ScannerMask | ws2812b-led-control/script.js:422-434 | lit iff within 5 of the centre, and a nearer LED is never dimmer |
| LedPatterns.ScannerBounce | ws2812b-led-control/script.js:427 | the centre moves down one per frame, then up, repeating every 2·count frames |
| LedPatterns.ColorWipe | ws2812b-led-control/script.js:435-453 | one colour per LED |
| LedPatterns.ColorWipeMask | ws2812b-led-control/script.js:435-453 | LEDs 0..frame%count are lit in colour `floor(frame/count) % 4` and the rest are dark |
| LedPatterns.ColorWipeStep | ws2812b-led-control/script.js:435-453 | each frame lights one more LED in the same colour; after a full sweep only LED 0 is lit, in the next colour |
| LedPatterns.Chase | ws2812b-led-control/script.js:463-474 | LED i is lit iff `(i + frame) % 3 == 0` |
| LedPatterns.ChaseMoves | ws2812b-led-control/script.js:463-474 | the pattern moves one LED per frame and repeats every 3 frames |
| LedPatterns.MeteorHead | ws2812b-led-control/script.js:491 | the head position is below count + 10 |
| LedPatterns.Meteor | ws2812b-led-control/script.js:486-500 | one colour per LED |
| LedPatterns.MeteorMask | ws2812b-led-control/script.js:486-500 | lit iff within three places behind the head; the tail brightens towards the head; dark once the head is 3 past the end |
| LedPatterns.SpinningDot | ws2812b-led-control/script.js:546-556 | one colour per LED |
| LedPatterns.SpinningDotMask | ws2812b-led-control/script.js:546-556 | only LED frame%count is lit, in white, and the next frame lights the next LED round the ring |
| LedPatterns.HourHand | ws2812b-led-control/script.js:562 | the hour hand is an LED index |
| LedPatterns.MinuteHand | ws2812b-led-control/script.js:563 | the minute hand is an LED index |
| LedPatterns.Clock | ws2812b-led-control/script.js:557-570 | one colour per LED |
| LedPatterns.ClockMask | ws2812b-led-control/script.js:557-570 | exactly the two hands are lit, the hour hand red and on top, the minute hand green |
| LedPatterns.MinuteHandStep | ws2812b-led-control/script.js:563 | the minute hand moves one LED every frame |
| LedPatterns.HourHandStep | ws2812b-led-control/script.js:562 | the hour hand moves one LED every twelfth frame and stays put otherwise |
| LedPatterns.OppositeSpinAsWritten | ws2812b-led-control/script.js:571-584 | Opposite Spin as written: one colour per LED |
| LedPatterns.OppositeSpinAsWrittenLosesBlue | ws2812b-led-control/script.js:577-580 | from frame count on, no LED is ever blue |
| LedPatterns.OppositeSpinAsWrittenExample | ws2812b-led-control/script.js:576-582 | 8 LEDs at frame 9: red at 1 and no blue as written; the mirrored version shows blue at 7 |
| LedPatterns.MirrorPos | ws2812b-led-control/script.js:577 | the mirror of the red position is an LED index that sums with it to 0 modulo count |
| LedPatterns.OppositeSpin | ws2812b-led-control/script.js:571-584 | one colour per LED |
| LedPatterns.OppositeSpinMask | ws2812b-led-control/script.js:571-584 | exactly the red dot at frame%count and its mirror are lit, red on top, the mirror blue |
| LedPatterns.OppositeSpinFirstTurn | ws2812b-led-control/script.js:576-577 | during the first turn the written and mirrored versions agree |
| LedPatterns.FillLevel | ws2812b-led-control/script.js:590-592 | the fill level never exceeds count |
| LedPatterns.RingFill | ws2812b-led-control/script.js:585-598 | LED i is lit iff i is below the fill level |
| LedPatterns.FillLevelStep | ws2812b-led-control/script.js:590-592 | the level climbs by one per frame to count, then falls back, repeating every 2·count frames |
| LedPatterns.Compass | ws2812b-led-control/script.js:599-617 | north red; with 4 or more LEDs east blue, south green, west yellow; every other LED dim |
| LedPatterns.CeilSqrt | ws2812b-led-control/script.js:669 | `Math.ceil(Math.sqrt(n))`: the least s with s·s ≥ n |
| LedPatterns.GridSize | ws2812b-led-control/script.js:669 | the grid side is at least 1 and the grid holds every LED |
| LedPatterns.Checkerboard | ws2812b-led-control/script.js:714-727 | every LED is white or dark |
| LedPatterns.CheckerboardCell | ws2812b-led-control/script.js:721-724 | LED i is white iff column + row + frame is even |
| LedPatterns.Parity | ws2812b-led-control/script.js:723 | the square colour is 0 or 1 |
| LedPatterns.ParityNeighbours | ws2812b-led-control/script.js:723 | the colour flips each frame and between row or column neighbours |
| LedPatterns.CheckerboardFlips | ws2812b-led-control/script.js:714-727 | every frame swaps white and dark; the pattern repeats every two frames |
| LedPatterns.CheckerboardRowNeighbours | ws2812b-led-control/script.js:714-727 | neighbours in a row always differ |
| LedPatterns.CheckerboardColumnNeighbours | ws2812b-led-control/script.js:714-727 | neighbours in a column always differ |
| LedPatterns.DiagonalSweep | ws2812b-led-control/script.js:679-693 | one colour per LED |
| LedPatterns.DiagonalSweepMask | ws2812b-led-control/script.js:679-693 | an LED is lit iff `(x + y + frame) % (2·size) < 3` |
| LedPatterns.NextInRow | ws2812b-led-control/script.js:686-687 | the next LED in the same row is one column further right |
| LedPatterns.DiagonalSweepMovesAlongRow | ws2812b-led-control/script.js:686-690 | within a row, each LED shows next frame what its right-hand neighbour shows now: the band moves one column left per frame |
| LedPatterns.DiagonalSweepMovesAlongColumn | ws2812b-led-control/script.js:686-690 | each LED shows next frame what the LED below it shows now: the band moves one row up per frame |
| LedPatterns.DiagonalSweepPeriod | ws2812b-led-control/script.js:684-690 | the sweep repeats every 2·size frames |
| LedPatterns.MatrixRain | ws2812b-led-control/script.js:664-678 | one colour per LED |
| LedPatterns.DropRow | ws2812b-led-control/script.js:673 | a column's drop row lies in 0..size+4 |
| LedPatterns.MatrixRainDrops | ws2812b-led-control/script.js:664-678 | only green is used, and an LED is fully bright exactly at its column's drop row |
| LedPatterns.RowInGrid | ws2812b-led-control/script.js:669-672 | every LED's row lies inside the grid |
| LedPatterns.DropRowStep | ws2812b-led-control/script.js:673 | a drop falls one row per frame and goes back to row 0 after row size+4 |
| LedPatterns.DropRowPeriod | ws2812b-led-control/script.js:673 | a drop is back in its row after size+5 frames |
| LedPatterns.MatrixRainPeriod | ws2812b-led-control/script.js:669-676 | the rain repeats every size+5 frames |
| LedPatterns.MatrixRainFalls | ws2812b-led-control/script.js:671-675 | a fully bright LED passes its brightness to the LED below it in the next frame and itself becomes the 128 trail |
| PatternCatalog.GetPatterns | ws2812b-led-control/script.js:851-858 | at least 10 patterns; a pattern is listed iff it belongs to the arrangement's layout ('ring', 'matrix', anything else a strip); no pattern twice |
| PatternCatalog.GetPatternsSeparates | ws2812b-led-control/script.js:851-858 | two arrangements get the same list iff they select the same layout |
| PatternCatalog.Update | ws2812b-led-control/script.js:387-727 | a frame exists exactly for the integer patterns, one colour per LED |
| LedControl.AllBlack | ws2812b-led-control/script.js:202 | n LEDs, all dark |
| LedControl.LedController.Sends | ws2812b-led-control/script.js:139-150 | with a writer, the framed line; without one, nothing |
| LedControl.LedController.constructor | ws2812b-led-control/script.js:2-18 | 8 dark LEDs on a ring at brightness 128, the ring patterns, no port, no animation, nothing sent |
| LedControl.LedController.SendCommand | ws2812b-led-control/script.js:139-150 | the framed line is logged if a port is open, and nothing else changes |
| LedControl.LedController.SendLedData | ws2812b-led-control/script.js:353-360 | the frame command of the current LEDs at the current brightness is sent, and nothing else changes |
| LedControl.LedController.InitializeLeds | ws2812b-led-control/script.js:201-205 | ledCount dark LEDs, and the arrangement back to 'ring' |
| LedControl.LedController.LoadPatterns | ws2812b-led-control/script.js:362-365 | the pattern list of the current arrangement |
| LedControl.LedController.UpdateLayout | ws2812b-led-control/script.js:207-214 | the new count with dark LEDs, the ring patterns whatever was chosen, and `led_count:<n>` sent |
| LedControl.LedController.SetLedColor | ws2812b-led-control/script.js:269-274 | LED index takes the picked colour and the other LEDs are unchanged; the new frame is sent and an animation keeps running |
| LedControl.LedController.FillAllLeds | ws2812b-led-control/script.js:286-297 | the animation stops, every LED takes the picked colour, and the frame is sent |
| LedControl.LedController.ClearAllLeds | ws2812b-led-control/script.js:299-309 | the animation stops, ledCount dark LEDs are set, and the frame is sent |
| LedControl.LedController.UpdateBrightness | ws2812b-led-control/script.js:327-333 | the new level, then `brightness:<v>`, then the LEDs at the new level are sent |
| LedControl.LedController.RunPattern | ws2812b-led-control/script.js:378-392 | the animation is replaced by this pattern from frame 0, and the LEDs are unchanged until it fires |
| LedControl.LedController.Tick | ws2812b-led-control/script.js:386-391 | the LEDs become the pattern's frame, which is sent, and the frame counter moves on by one |
| LedControl.LedController.Connect | ws2812b-led-control/script.js:55-81 | a port is open and `led_count:<n>` then `brightness:<b>` have been sent |
| LedControl.LedController.Disconnect | ws2812b-led-control/script.js:83-127 | the animation stops and the port is gone; nothing else changes |

## Left out

- Everything that touches the page is not modelled: `initializeElements`,
  `setupEventListeners`, `updateLEDGrid`, `createRingLayout`, `updateLEDDisplay`,
  `renderPatterns`, `updateStatus`, `updateStatusMessage`, `showError`, and the
  file-information, image and download-link elements of `parseOTB`. The model
  stops at the values these are given: the error text (`Otb.ErrorMessage`), the
  BMP bytes and the download name.
- File reading (`FileReader`), `Blob` and object URLs in the OTB viewer are I/O
  and are left out. The model receives the file's bytes as a parameter.
- WebSerial is left out: requesting and opening the port, the stream reader,
  `readSerialData`, `toggleConnection`, and errors raised by `writer.write`,
  which the source catches and logs. The port is a `connected` flag, and the
  writes are a log of lines.
- The `TextEncoder` step of `sendCommand` is left out: lines are logged as
  strings. Every character sent is ASCII, so the UTF-8 bytes are those
  characters.
- Timing is left out: `setInterval`, each pattern's speed, and the asynchronous
  order of writes. One firing of the interval is `LedControl.LedController.Tick`.
- Patterns that need floating point or trigonometry are not modelled: Rainbow
  Wave, Fire Effect, Breathing, Fade Colors, Wave, Rotate Rainbow, Pulse Ring,
  Ring Wave, Orbit, Ring Bounce, Spiral, Concentric Circles, Matrix Pulse,
  Matrix Wave, Matrix Explosion, Matrix Clock and Matrix Snake, and `hslToRgb`.
  They appear in the pattern lists by name only.
- Randomness is left out: `randomColors`, Twinkle and Random Matrix use
  `Math.random` and are not modelled.
- `parseInt` results that are not numbers are not modelled. The LED count must be
  at least 1 and the brightness in 0..255, which is what the page's inputs
  deliver.
- LedColor.ApplyBrightness: stated with the integer `floor(c * b / 255)` in
  place of the float `Math.floor(c * (b / 255))`. The two can differ by one where
  the float quotient rounds below an integer. Only bounds and monotonicity are
  claimed about the result, and these hold for both.
- LedControl.LedController.Tick: only the integer-arithmetic patterns can fire,
  because the others are not modelled. An Opposite Spin tick sends the
  corrected frame of `LedPatterns.OppositeSpin`, not the frame of line 577 as
  written (see "## Findings").
- PatternCatalog.Update: Opposite Spin frames come from the corrected
  `LedPatterns.OppositeSpin`, whose blue dot is at `(count - frame % count) % count`,
  not from line 577 as written. `LedPatterns.OppositeSpinAsWritten` models the
  written line, and `LedPatterns.OppositeSpinFirstTurn` shows the two agree
  while `frame <= count`.
- LedControl.LedController.SetLedColor: requires an index below the LED count.
  The page only offers such indices, and JavaScript would extend the array for a
  larger one.
- LedColor.FrameRoundTrip: requires at least one LED, because the empty command
  splits into one empty piece.
- LedControl.LedController.Connect: does not model a failed `requestPort`. In
  that case the source leaves the state as it was and shows an alert.

## Findings

| source | as written | input that shows it | evidently intended | confidence | as-written member | corrected member |
|---|---|---|---|---|---|---|
| ws2812b-led-control/script.js:577 | Opposite Spin places its blue dot at `(count - frame) % count`. Once `frame > count`, the dividend is negative, so JavaScript's remainder is negative and matches no LED. | 8 LEDs, frame 9: `(8 - 9) % 8` is `-1`, so only the red LED 1 is lit and no LED is blue. | The blue dot mirrors the red one on every turn, at `(count - frame % count) % count`. | not executed | LedPatterns.OppositeSpinAsWritten (shown by LedPatterns.OppositeSpinAsWrittenLosesBlue and LedPatterns.OppositeSpinAsWrittenExample) | LedPatterns.OppositeSpin (proved by LedPatterns.OppositeSpinMask; used by PatternCatalog.Update) |
