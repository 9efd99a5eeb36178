/** Reading a Nokia OTB picture (Nokia_OTB_Picture_Viewer/script.js):
    the header checks of `parseOTB` and the name offered for the converted
    download. */
module Otb {
  import opened Text
  import opened Packing

  /** The four rejections of `parseOTB`, in the order it tests them. */
  datatype OtbError =
    | TooSmall
    | InvalidDimensions
    | InsufficientBitmapData(expected: nat, actual: nat)
    | UnsupportedColorDepth

  /** A header that passed every check, and the packed pixel bits after it. */
  datatype OtbImage = OtbImage(width: nat, height: nat, colorDepth: nat, bitmapData: seq<Byte>)

  datatype Result<T> = Ok(value: T) | Err(error: OtbError)

  datatype Option<T> = None | Some(value: T)

  /** `Math.ceil(a / d)` for non-negative integers. */
  function CeilDiv(a: nat, d: nat): nat
    requires d > 0
  {
    (a + d - 1) / d
  }

  /** CeilDiv is the least multiplier of d that reaches a. */
  lemma CeilDivIsLeast(a: nat, d: nat)
    requires d > 0
    ensures CeilDiv(a, d) * d >= a
    ensures CeilDiv(a, d) == 0 || (CeilDiv(a, d) - 1) * d < a
  {
    var q, r := (a + d - 1) / d, (a + d - 1) % d;
    assert a + d - 1 == q * d + r;
  }

  /** A well-formed monochrome OTB buffer, stated on its own terms: a header and
      at least one body byte, non-zero dimensions, depth 1, and enough body bytes
      to hold width*height bits. */
  predicate WellFormedOtb(data: seq<Byte>) {
    && |data| > 4
    && data[1] != 0 && data[2] != 0
    && data[3] == 1
    && 8 * (|data| - 4) >= (data[1] as int) * data[2]
  }

  /** `parseOTB` up to the point where it hands the body to `createBMP`. */
  function ParseOtb(data: seq<Byte>): (r: Result<OtbImage>)
    ensures r.Ok? <==> WellFormedOtb(data)
    ensures r.Ok? ==> r.value == OtbImage(data[1], data[2], 1, data[4..])
  {
    if |data| <= 4 then Err(TooSmall)
    else
      var width: nat, height: nat, colorDepth: nat := data[1], data[2], data[3];
      var bitmapData := data[4..];
      if width == 0 || height == 0 then Err(InvalidDimensions)
      else
        var expectedBytes := CeilDiv(width * height, 8);
        if |bitmapData| < expectedBytes then Err(InsufficientBitmapData(expectedBytes, |bitmapData|))
        else if colorDepth != 1 then Err(UnsupportedColorDepth)
        else Ok(OtbImage(width, height, colorDepth, bitmapData))
  }

  /** Every check the buffer fails, listed independently of one another in the
      order the source lists them; the header checks are only meaningful once
      the buffer is long enough to have a header. */
  function Violations(data: seq<Byte>): seq<OtbError> {
    if |data| <= 4 then [TooSmall]
    else
      var w: nat, h: nat := data[1], data[2];
      (if w == 0 || h == 0 then [InvalidDimensions] else [])
      + (if |data| - 4 < CeilDiv(w * h, 8) then [InsufficientBitmapData(CeilDiv(w * h, 8), |data| - 4)] else [])
      + (if data[3] != 1 then [UnsupportedColorDepth] else [])
  }

  /** The first failing check wins; with none failing the parse succeeds. */
  lemma ParseReportsFirstViolation(data: seq<Byte>)
    ensures Violations(data) == [] <==> ParseOtb(data).Ok?
    ensures Violations(data) != [] ==> ParseOtb(data) == Err(Violations(data)[0])
  {
  }

  /** Byte 0 of the header is never read. */
  lemma ParseIgnoresFirstByte(data: seq<Byte>, b: Byte)
    requires |data| > 0
    ensures ParseOtb(data[0 := b]) == ParseOtb(data)
  {
    if |data| > 4 {
      assert data[0 := b][4..] == data[4..];
    }
  }

  /** The insufficient-data rejection reports exactly how many body bytes were
      needed and how many there were, and the shortfall is real. */
  lemma InsufficientDataReportsCounts(data: seq<Byte>)
    requires ParseOtb(data).Err? && ParseOtb(data).error.InsufficientBitmapData?
    ensures ParseOtb(data).error.actual == |data| - 4
    ensures ParseOtb(data).error.actual < ParseOtb(data).error.expected
    ensures ParseOtb(data).error.expected * 8 >= (data[1] as int) * data[2]
  {
    CeilDivIsLeast((data[1] as int) * data[2], 8);
  }

  /** Boundary cases: a 4-byte buffer is "too small" even when its header
      describes a 1x1 picture. */
  lemma ParseExamples()
    ensures ParseOtb([0x00, 0x01, 0x01, 0x01]) == Err(TooSmall)
    ensures ParseOtb([0x00, 0x08, 0x01, 0x01, 0xFF]) == Ok(OtbImage(8, 1, 1, [0xFF]))
    ensures ParseOtb([0x00, 0x00, 0x05, 0x01, 0x00, 0x00]) == Err(InvalidDimensions)
    ensures ParseOtb([0x00, 0x08, 0x01, 0x02, 0xFF]) == Err(UnsupportedColorDepth)
    ensures ParseOtb([0x00, 0x10, 0x02, 0x01, 0xFF]) == Err(InsufficientBitmapData(4, 1))
  {
    assert [0x00 as Byte, 0x08, 0x01, 0x01, 0xFF][4..] == [0xFF];
  }

  /** The text `showError` is given for each rejection. */
  function ErrorMessage(e: OtbError): (m: string)
    ensures |m| > 0
  {
    match e
    case TooSmall => "Invalid OTB file: File too small"
    case InvalidDimensions => "Invalid dimensions: Width and height must be greater than 0"
    case InsufficientBitmapData(expected, actual) =>
      "Invalid OTB file: Expected " + Decimal(expected) + " bytes for bitmap data, got " + Decimal(actual)
    case UnsupportedColorDepth => "Unsupported color depth: Only 1-bit OTB files are supported"
  }

  /** The short-data message carries both counts: equal messages have equal counts. */
  lemma ShortDataMessageCounts(expected1: nat, actual1: nat, expected2: nat, actual2: nat)
    requires ErrorMessage(InsufficientBitmapData(expected1, actual1)) == ErrorMessage(InsufficientBitmapData(expected2, actual2))
    ensures expected1 == expected2 && actual1 == actual2
  {
    var p, mid := "Invalid OTB file: Expected ", " bytes for bitmap data, got ";
    var d1, d2 := Decimal(expected1), Decimal(expected2);
    var a1, a2 := Decimal(actual1), Decimal(actual2);
    Regroup(p, d1, mid, a1);
    Regroup(p, d2, mid, a2);
    DropCommonPrefix(p, d1 + (mid + a1), d2 + (mid + a2));
    DecimalRoundTrip(expected1);
    DecimalRoundTrip(expected2);
    NumeralSplit(d1, mid + a1, d2, mid + a2);
    DropCommonPrefix(mid, a1, a2);
    DecimalRoundTrip(actual1);
    DecimalRoundTrip(actual2);
  }

  lemma Regroup(p: string, d: string, mid: string, a: string)
    ensures p + d + mid + a == p + (d + (mid + a))
  {
  }

  lemma DropCommonPrefix(p: string, x: string, y: string)
    requires p + x == p + y
    ensures x == y
  {
    assert x == (p + x)[|p|..];
    assert y == (p + y)[|p|..];
  }

  /** Character 18 of each message, which depends only on its kind. */
  function MessageKey(e: OtbError): char {
    match e
    case TooSmall => 'F'
    case InvalidDimensions => ':'
    case InsufficientBitmapData(_, _) => 'E'
    case UnsupportedColorDepth => 'd'
  }

  lemma MessageHasKey(e: OtbError)
    ensures |ErrorMessage(e)| > 18 && ErrorMessage(e)[18] == MessageKey(e)
  {
    match e
    case InsufficientBitmapData(expected, actual) => ShortDataKey(expected, actual);
    case TooSmall => TooSmallKey();
    case InvalidDimensions => InvalidDimensionsKey();
    case UnsupportedColorDepth => UnsupportedColorDepthKey();
  }

  lemma ShortDataKey(expected: nat, actual: nat)
    ensures |ErrorMessage(InsufficientBitmapData(expected, actual))| > 18
    ensures ErrorMessage(InsufficientBitmapData(expected, actual))[18] == 'E'
  {
    var p := "Invalid OTB file: Expected ";
    assert ErrorMessage(InsufficientBitmapData(expected, actual))
      == p + Decimal(expected) + " bytes for bitmap data, got " + Decimal(actual);
    assert p[18] == 'E';
  }

  lemma TooSmallKey()
    ensures |ErrorMessage(TooSmall)| > 18 && ErrorMessage(TooSmall)[18] == 'F'
  {
    var m := "Invalid OTB file: File too small";
    assert m[18] == 'F';
  }

  lemma InvalidDimensionsKey()
    ensures |ErrorMessage(InvalidDimensions)| > 18 && ErrorMessage(InvalidDimensions)[18] == ':'
  {
    var m := "Invalid dimensions: Width and height must be greater than 0";
    assert m[18] == ':';
  }

  lemma UnsupportedColorDepthKey()
    ensures |ErrorMessage(UnsupportedColorDepth)| > 18 && ErrorMessage(UnsupportedColorDepth)[18] == 'd'
  {
    var m := "Unsupported color depth: Only 1-bit OTB files are supported";
    assert m[18] == 'd';
  }

  /** Different kinds of rejection never share a message. */
  lemma ErrorKindsDiffer(e1: OtbError, e2: OtbError)
    requires e1.InsufficientBitmapData? ==> !e2.InsufficientBitmapData?
    requires e1 != e2
    ensures ErrorMessage(e1) != ErrorMessage(e2)
  {
    MessageHasKey(e1);
    MessageHasKey(e2);
  }

  /** The message tells the rejections apart: equal messages come from equal errors. */
  lemma ErrorMessageIdentifies(e1: OtbError, e2: OtbError)
    ensures ErrorMessage(e1) == ErrorMessage(e2) <==> e1 == e2
  {
    if e1.InsufficientBitmapData? && e2.InsufficientBitmapData? {
      if ErrorMessage(e1) == ErrorMessage(e2) {
        ShortDataMessageCounts(e1.expected, e1.actual, e2.expected, e2.actual);
      }
    } else if e1 != e2 {
      ErrorKindsDiffer(e1, e2);
    }
  }

  // ---------------------------------------------------------------------------
  // Download name: `filename.replace(/\.[^/.]+$/, "") + '.bmp'`

  /** The regular expression `\.[^/.]+$` matches `name` starting at index i:
      a dot, then at least one character, none of them '/' or '.', up to the end. */
  predicate ExtensionAt(name: string, i: int) {
    && 0 <= i && i + 1 < |name|
    && name[i] == '.'
    && forall j :: i < j < |name| ==> name[j] != '/' && name[j] != '.'
  }

  /** At most one position can start the match. */
  lemma ExtensionUnique(name: string, i: int, j: int)
    requires ExtensionAt(name, i) && ExtensionAt(name, j)
    ensures i == j
  {
  }

  /** Walks back from index j over characters that may belong to an extension. */
  function ScanExtension(name: string, j: nat): (r: Option<nat>)
    requires j <= |name|
    requires forall k :: j <= k < |name| ==> name[k] != '/' && name[k] != '.'
    ensures r.Some? ==> ExtensionAt(name, r.value)
    ensures r.None? ==> forall i :: 0 <= i < j ==> !ExtensionAt(name, i)
    decreases j
  {
    if j == 0 then None
    else if name[j - 1] == '.' then (if j < |name| then Some(j - 1) else None)
    else if name[j - 1] == '/' then None
    else ScanExtension(name, j - 1)
  }

  /** Where the regular expression matches, if it does. */
  function ExtensionStart(name: string): (r: Option<nat>)
    ensures r.Some? ==> ExtensionAt(name, r.value)
    ensures r.None? ==> forall i :: !ExtensionAt(name, i)
  {
    ScanExtension(name, |name|)
  }

  /** The suggested name of the converted file. */
  function DownloadName(filename: string): (r: string)
    ensures forall i :: ExtensionAt(filename, i) ==> r == filename[..i] + ".bmp"
    ensures (forall i :: !ExtensionAt(filename, i)) ==> r == filename + ".bmp"
  {
    var baseName := match ExtensionStart(filename)
      case Some(i) => filename[..i]
      case None => filename;
    baseName + ".bmp"
  }

  /** Converting a name twice changes nothing more: the result's own extension is "bmp". */
  lemma DownloadNameIdempotent(filename: string)
    ensures DownloadName(DownloadName(filename)) == DownloadName(filename)
  {
    var r := DownloadName(filename);
    var i := |r| - 4;
    assert r[i..] == ".bmp";
    assert ExtensionAt(r, i);
    assert r[..i] + ".bmp" == r;
  }

  lemma DownloadNameExamples()
    ensures DownloadName("1.otb") == "1.bmp"
    ensures DownloadName("a.b.otb") == "a.b.bmp"
    ensures DownloadName("noext") == "noext.bmp"
    ensures DownloadName("dir.d/file") == "dir.d/file.bmp"
    ensures DownloadName("trailing.") == "trailing..bmp"
  {
    assert ExtensionAt("1.otb", 1);
    assert ExtensionAt("a.b.otb", 3);
    assert "dir.d/file"[5] == '/';
    assert "trailing."[8] == '.';
  }
}
