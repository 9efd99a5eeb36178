/** Colours and the serial command of the WS2812B controller
    (ws2812b-led-control/script.js): `hexToRgb`, `applyBrightness`, the
    per-frame command built by `sendLEDData`, the line framing of
    `sendCommand`, and the decoding the Arduino side does of that command. */
module LedColor {
  import opened Text

  /** One colour channel as the strip takes it. */
  type Channel = x: int | 0 <= x < 256

  datatype RGB = RGB(r: Channel, g: Channel, b: Channel)

  datatype Option<T> = None | Some(value: T)

  const Black := RGB(0, 0, 0)

  // ---------------------------------------------------------------- hexToRgb

  /** A character of the class `[a-f\d]` under the `i` flag. */
  predicate IsHexDigit(c: char) {
    '0' <= c <= '9' || 'a' <= c <= 'f' || 'A' <= c <= 'F'
  }

  function HexValue(c: char): (v: nat)
    requires IsHexDigit(c)
    ensures v < 16
  {
    if '0' <= c <= '9' then (c as int) - ('0' as int)
    else if 'a' <= c <= 'f' then (c as int) - ('a' as int) + 10
    else (c as int) - ('A' as int) + 10
  }

  predicate AllHex(s: string) {
    forall i :: 0 <= i < |s| ==> IsHexDigit(s[i])
  }

  /** The language of `/^#?([a-f\d]{2})([a-f\d]{2})([a-f\d]{2})$/i`. */
  predicate IsHexColor(s: string) {
    (|s| == 6 && AllHex(s)) || (|s| == 7 && s[0] == '#' && AllHex(s[1..]))
  }

  /** The six digits a matching string carries, without the optional `#`. */
  function HexDigits(s: string): (d: string)
    requires IsHexColor(s)
    ensures |d| == 6 && AllHex(d)
  {
    if |s| == 7 then s[1..] else s
  }

  /** `parseInt(pair, 16)` for a pair of hex digits. */
  function PairValue(hi: char, lo: char): (v: Channel)
    requires IsHexDigit(hi) && IsHexDigit(lo)
  {
    HexValue(hi) * 16 + HexValue(lo)
  }

  /** `hexToRgb`: the three pairs of a matching string, black for anything else. */
  function HexToRgb(hex: string): (c: RGB)
    ensures !IsHexColor(hex) ==> c == Black
    ensures IsHexColor(hex) ==>
      var d := HexDigits(hex);
      && c.r == HexValue(d[0]) * 16 + HexValue(d[1])
      && c.g == HexValue(d[2]) * 16 + HexValue(d[3])
      && c.b == HexValue(d[4]) * 16 + HexValue(d[5])
  {
    if IsHexColor(hex) then
      var d := HexDigits(hex);
      RGB(PairValue(d[0], d[1]), PairValue(d[2], d[3]), PairValue(d[4], d[5]))
    else Black
  }

  function LowerHexDigit(v: nat): (c: char)
    requires v < 16
    ensures IsHexDigit(c) && HexValue(c) == v
  {
    "0123456789abcdef"[v]
  }

  /** The `#rrggbb` form a colour picker reports for a colour. */
  function ToHex(c: RGB): (s: string)
    ensures |s| == 7 && s[0] == '#'
  {
    ['#', LowerHexDigit(c.r / 16), LowerHexDigit(c.r % 16),
          LowerHexDigit(c.g / 16), LowerHexDigit(c.g % 16),
          LowerHexDigit(c.b / 16), LowerHexDigit(c.b % 16)]
  }

  /** Reading back what a colour picker writes gives the colour, with or
      without the leading `#`. */
  lemma HexRoundTrip(c: RGB)
    ensures IsHexColor(ToHex(c)) && HexToRgb(ToHex(c)) == c
    ensures IsHexColor(ToHex(c)[1..]) && HexToRgb(ToHex(c)[1..]) == c
  {
    var s := ToHex(c);
    assert AllHex(s[1..]);
  }

  function UpperChar(c: char): char {
    if 'a' <= c <= 'z' then (c as int - 'a' as int + 'A' as int) as char else c
  }

  function Upper(s: string): (u: string)
    ensures |u| == |s|
    ensures forall i :: 0 <= i < |s| ==> u[i] == UpperChar(s[i])
  {
    seq(|s|, i requires 0 <= i < |s| => UpperChar(s[i]))
  }

  /** The `i` flag: upper-casing the input changes neither acceptance nor value. */
  lemma HexCaseInsensitive(hex: string)
    ensures IsHexColor(Upper(hex)) <==> IsHexColor(hex)
    ensures HexToRgb(Upper(hex)) == HexToRgb(hex)
  {
    var u := Upper(hex);
    forall i | 0 <= i < |hex|
      ensures IsHexDigit(u[i]) <==> IsHexDigit(hex[i])
      ensures IsHexDigit(hex[i]) ==> HexValue(u[i]) == HexValue(hex[i])
    {
    }
    if |hex| == 7 {
      assert AllHex(u[1..]) <==> AllHex(hex[1..]) by {
        forall i | 0 <= i < 6 ensures u[1..][i] == u[i + 1] && hex[1..][i] == hex[i + 1] { }
      }
    }
  }

  lemma HexExamples()
    ensures HexToRgb("#ff8000") == RGB(255, 128, 0)
    ensures HexToRgb("FF8000") == RGB(255, 128, 0)
    ensures HexToRgb("#ff800") == Black
    ensures HexToRgb("#gg8000") == Black
    ensures HexToRgb("") == Black
  {
    assert IsHexColor("#ff8000") && HexDigits("#ff8000") == "ff8000";
    assert IsHexColor("FF8000");
    assert !IsHexDigit('g');
  }

  // --------------------------------------------------------- applyBrightness

  /** `Math.floor(x * (brightness / 255))`, taken over the integers. */
  function Scale(x: Channel, brightness: int): (y: Channel)
    requires 0 <= brightness <= 255
    ensures y <= x
    ensures brightness == 255 ==> y == x
    ensures brightness == 0 ==> y == 0
  {
    x * brightness / 255
  }

  /** `applyBrightness`: every channel scaled by brightness/255. */
  function ApplyBrightness(c: RGB, brightness: int): (d: RGB)
    requires 0 <= brightness <= 255
    ensures d.r <= c.r && d.g <= c.g && d.b <= c.b
    ensures brightness == 255 ==> d == c
    ensures brightness == 0 ==> d == Black
  {
    RGB(Scale(c.r, brightness), Scale(c.g, brightness), Scale(c.b, brightness))
  }

  /** A brighter setting never gives a darker channel. */
  lemma ScaleMonotone(x: Channel, b1: int, b2: int)
    requires 0 <= b1 <= b2 <= 255
    ensures Scale(x, b1) <= Scale(x, b2)
  {
    assert x * b1 <= x * b2;
  }

  lemma ApplyBrightnessMonotone(c: RGB, b1: int, b2: int)
    requires 0 <= b1 <= b2 <= 255
    ensures ApplyBrightness(c, b1).r <= ApplyBrightness(c, b2).r
    ensures ApplyBrightness(c, b1).g <= ApplyBrightness(c, b2).g
    ensures ApplyBrightness(c, b1).b <= ApplyBrightness(c, b2).b
  {
    ScaleMonotone(c.r, b1, b2);
    ScaleMonotone(c.g, b1, b2);
    ScaleMonotone(c.b, b1, b2);
  }

  // ------------------------------------------------------------- sendLEDData

  /** `${index}:${r},${g},${b}`. */
  function LedEntry(index: nat, c: RGB): string {
    Decimal(index) + [':'] + Decimal(c.r) + [','] + Decimal(c.g) + [','] + Decimal(c.b)
  }

  /** The entries of `sendLEDData`, one per LED, brightness applied. */
  function FrameEntries(states: seq<RGB>, brightness: int): (entries: seq<string>)
    requires 0 <= brightness <= 255
    ensures |entries| == |states|
    ensures forall i :: 0 <= i < |states| ==> entries[i] == LedEntry(i, ApplyBrightness(states[i], brightness))
  {
    seq(|states|, i requires 0 <= i < |states| => LedEntry(i, ApplyBrightness(states[i], brightness)))
  }

  /** The command `sendLEDData` hands to `sendCommand`. */
  function FrameCommand(states: seq<RGB>, brightness: int): (cmd: string)
    requires 0 <= brightness <= 255
    ensures states == [] ==> cmd == ""
  {
    Join(FrameEntries(states, brightness), ';')
  }

  /** The line `sendCommand` writes: the command and a CR LF. */
  function Framed(command: string): (line: string)
    ensures |line| == |command| + 2
    ensures line[..|command|] == command && line[|command|..] == "\r\n"
  {
    command + "\r\n"
  }

  /** A decimal channel value, if the text is a numeral below 256. */
  function ParseChannel(s: string): Option<Channel> {
    if IsNumeral(s) && DecimalValue(s) < 256 then Some(DecimalValue(s)) else None
  }

  /** Three comma-separated channels. */
  function ParseChannels(s: string): Option<RGB> {
    var cs := Split(s, ',');
    if |cs| != 3 then None
    else
      match (ParseChannel(cs[0]), ParseChannel(cs[1]), ParseChannel(cs[2]))
      case (Some(r), Some(g), Some(b)) => Some(RGB(r, g, b))
      case _ => None
  }

  /** The receiving side's reading of one entry: an index, a colon and three
      comma-separated channels. */
  function DecodeEntry(e: string): Option<(nat, RGB)> {
    var halves := Split(e, ':');
    if |halves| != 2 || !IsNumeral(halves[0]) then None
    else
      match ParseChannels(halves[1])
      case Some(c) => Some((DecimalValue(halves[0]), c))
      case None => None
  }

  /** The receiving side's reading of a whole command, entry by entry. */
  function DecodeFrame(cmd: string): (leds: seq<Option<(nat, RGB)>>)
    ensures |leds| == |Split(cmd, ';')|
  {
    var parts := Split(cmd, ';');
    seq(|parts|, i requires 0 <= i < |parts| => DecodeEntry(parts[i]))
  }

  lemma NumeralHasNo(s: string, c: char)
    requires IsNumeral(s) && !IsDigit(c)
    ensures c !in s
  {
  }

  /** Three numerals joined by commas split back into the three. */
  lemma SplitChannels(r: string, g: string, b: string)
    requires IsNumeral(r) && IsNumeral(g) && IsNumeral(b)
    ensures Split(r + [','] + g + [','] + b, ',') == [r, g, b]
  {
    NumeralHasNo(r, ','); NumeralHasNo(g, ','); NumeralHasNo(b, ',');
    SplitWithoutSeparator(b, ',');
    SplitAtFirstSeparator(g, ',', b);
    assert r + [','] + g + [','] + b == r + [','] + (g + [','] + b);
    SplitAtFirstSeparator(r, ',', g + [','] + b);
  }

  /** An index numeral, a colon and a colon-free rest split into the two. */
  lemma SplitIndex(i: string, rest: string)
    requires IsNumeral(i) && ':' !in rest
    ensures Split(i + [':'] + rest, ':') == [i, rest]
  {
    NumeralHasNo(i, ':');
    SplitWithoutSeparator(rest, ':');
    SplitAtFirstSeparator(i, ':', rest);
  }

  /** An entry built from four numerals decodes to their values. */
  lemma DecodeFields(i: string, r: string, g: string, b: string)
    requires IsNumeral(i) && IsNumeral(r) && IsNumeral(g) && IsNumeral(b)
    requires DecimalValue(r) < 256 && DecimalValue(g) < 256 && DecimalValue(b) < 256
    ensures DecodeEntry(i + [':'] + r + [','] + g + [','] + b) ==
      Some((DecimalValue(i), RGB(DecimalValue(r), DecimalValue(g), DecimalValue(b))))
  {
    var e := i + [':'] + r + [','] + g + [','] + b;
    var rest := r + [','] + g + [','] + b;
    var c := RGB(DecimalValue(r), DecimalValue(g), DecimalValue(b));
    assert Split(e, ':') == [i, rest] by {
      assert e == i + [':'] + rest;
      NumeralHasNo(r, ':'); NumeralHasNo(g, ':'); NumeralHasNo(b, ':');
      NotInJoined(r, g, b, ':');
      SplitIndex(i, rest);
    }
    assert ParseChannels(rest) == Some(c) by {
      SplitChannels(r, g, b);
      ChannelsOf(rest, r, g, b);
    }
    DecodeSplit(e, i, rest, c);
  }

  lemma ChannelsOf(s: string, r: string, g: string, b: string)
    requires Split(s, ',') == [r, g, b]
    requires IsNumeral(r) && IsNumeral(g) && IsNumeral(b)
    requires DecimalValue(r) < 256 && DecimalValue(g) < 256 && DecimalValue(b) < 256
    ensures ParseChannels(s) == Some(RGB(DecimalValue(r), DecimalValue(g), DecimalValue(b)))
  {
    assert ParseChannel(r) == Some(DecimalValue(r));
    assert ParseChannel(g) == Some(DecimalValue(g));
    assert ParseChannel(b) == Some(DecimalValue(b));
  }

  lemma DecodeSplit(e: string, i: string, rest: string, c: RGB)
    requires Split(e, ':') == [i, rest] && IsNumeral(i)
    requires ParseChannels(rest) == Some(c)
    ensures DecodeEntry(e) == Some((DecimalValue(i), c))
  {
  }

  lemma NotInJoined(r: string, g: string, b: string, c: char)
    requires c !in r && c !in g && c !in b && c != ','
    ensures c !in r + [','] + g + [','] + b
  {
  }

  lemma EntryRoundTrip(index: nat, c: RGB)
    ensures ';' !in LedEntry(index, c)
    ensures DecodeEntry(LedEntry(index, c)) == Some((index, c))
  {
    var i, r, g, b := Decimal(index), Decimal(c.r), Decimal(c.g), Decimal(c.b);
    DecimalRoundTrip(index); DecimalRoundTrip(c.r); DecimalRoundTrip(c.g); DecimalRoundTrip(c.b);
    DecodeFields(i, r, g, b);
    NumeralHasNo(i, ';'); NumeralHasNo(r, ';'); NumeralHasNo(g, ';'); NumeralHasNo(b, ';');
  }

  /** The command carries one entry per LED, in index order, and decoding it
      gives back each LED's index and brightness-adjusted colour. */
  lemma {:induction false} FrameRoundTrip(states: seq<RGB>, brightness: int)
    requires 0 <= brightness <= 255
    requires |states| >= 1
    ensures |DecodeFrame(FrameCommand(states, brightness))| == |states|
    ensures forall i :: 0 <= i < |states| ==>
      DecodeFrame(FrameCommand(states, brightness))[i] == Some((i, ApplyBrightness(states[i], brightness)))
  {
    var entries := FrameEntries(states, brightness);
    forall i | 0 <= i < |entries| ensures ';' !in entries[i] {
      EntryRoundTrip(i, ApplyBrightness(states[i], brightness));
    }
    SplitJoin(entries, ';');
    forall i | 0 <= i < |states|
      ensures DecodeFrame(FrameCommand(states, brightness))[i] == Some((i, ApplyBrightness(states[i], brightness)))
    {
      EntryRoundTrip(i, ApplyBrightness(states[i], brightness));
    }
  }

  /** The frame never holds a line break, so the CR LF appended by
      `sendCommand` is the only one on the line. */
  lemma FrameIsOneLine(states: seq<RGB>, brightness: int)
    requires 0 <= brightness <= 255
    ensures '\n' !in FrameCommand(states, brightness) && '\r' !in FrameCommand(states, brightness)
  {
    var entries := FrameEntries(states, brightness);
    forall i | 0 <= i < |entries| ensures '\n' !in entries[i] && '\r' !in entries[i] {
      var c := ApplyBrightness(states[i], brightness);
      EntryIsPrintable(i, c);
    }
    JoinChars(entries, ';', '\n');
    JoinChars(entries, ';', '\r');
  }

  lemma EntryIsPrintable(index: nat, c: RGB)
    ensures '\n' !in LedEntry(index, c) && '\r' !in LedEntry(index, c)
  {
    var i, r, g, b := Decimal(index), Decimal(c.r), Decimal(c.g), Decimal(c.b);
    DecimalRoundTrip(index); DecimalRoundTrip(c.r); DecimalRoundTrip(c.g); DecimalRoundTrip(c.b);
    NumeralHasNo(i, '\n'); NumeralHasNo(r, '\n'); NumeralHasNo(g, '\n'); NumeralHasNo(b, '\n');
    NumeralHasNo(i, '\r'); NumeralHasNo(r, '\r'); NumeralHasNo(g, '\r'); NumeralHasNo(b, '\r');
  }

  lemma FrameExample()
    ensures FrameCommand([RGB(255, 0, 10), Black], 255) == "0:255,0,10;1:0,0,0"
  {
    assert LedEntry(0, RGB(255, 0, 10)) == "0:255,0,10" by {
      assert Decimal(255) == "255" by {
        assert Decimal(25) == "25";
      }
      assert Decimal(10) == "10";
    }
    assert LedEntry(1, Black) == "1:0,0,0";
    var entries := FrameEntries([RGB(255, 0, 10), Black], 255);
    assert entries == ["0:255,0,10", "1:0,0,0"];
    assert Join(entries, ';') == "0:255,0,10" + ";" + "1:0,0,0" by {
      assert entries[1..] == ["1:0,0,0"];
    }
  }
}
