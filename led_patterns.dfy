/** The animation frames of the WS2812B controller that use integers only
    (the `update` functions of `getPatterns` in ws2812b-led-control/script.js).
    Each takes the frame number and the LED count and yields one colour per LED;
    a JavaScript `%` on the non-negative operands used here agrees with Dafny's,
    except where a negative operand is written out with JsRem. */
module LedPatterns {
  import opened LedColor

  const White := RGB(255, 255, 255)
  const Red := RGB(255, 0, 0)
  const Green := RGB(0, 255, 0)
  const Blue := RGB(0, 0, 255)
  const Yellow := RGB(255, 255, 0)

  function Abs(x: int): nat {
    if x < 0 then -x else x
  }

  /** The LEDs of a frame that are not dark. */
  function Lit(leds: seq<RGB>): set<nat> {
    set i: nat | i < |leds| && leds[i] != Black
  }

  // ------------------------------------------------------------ arithmetic

  lemma {:induction false} MulMonotone(x: nat, y: nat, n: nat)
    ensures x < y ==> x * n + n <= y * n
    decreases y - x
  {
    if x + 1 < y {
      MulMonotone(x + 1, y, n);
    }
    assert (x + 1) * n == x * n + n;
  }

  /** Division with remainder has one answer. */
  lemma DivModUnique(a: nat, n: nat, q: nat, r: nat)
    requires n >= 1 && r < n && a == q * n + r
    ensures a / n == q && a % n == r
  {
    var q', r' := a / n, a % n;
    assert a == q' * n + r';
    MulMonotone(q', q, n);
    MulMonotone(q, q', n);
  }

  /** One frame later the remainder moves on by one, wrapping at n. */
  lemma ModStep(f: nat, n: nat)
    requires n >= 1
    ensures (f + 1) % n == if f % n == n - 1 then 0 else f % n + 1
    ensures (f + 1) / n == if f % n == n - 1 then f / n + 1 else f / n
  {
    var q, r := f / n, f % n;
    if r == n - 1 {
      DivModUnique(f + 1, n, q + 1, 0);
    } else {
      DivModUnique(f + 1, n, q, r + 1);
    }
  }

  /** n frames later the remainder is back where it was. */
  lemma ModPeriod(f: nat, n: nat)
    requires n >= 1
    ensures (f + n) % n == f % n
    ensures (f + n) / n == f / n + 1
  {
    DivModUnique(f + n, n, f / n + 1, f % n);
  }

  /** `a % n` in JavaScript: the remainder takes the sign of the dividend. */
  function JsRem(a: int, n: nat): (r: int)
    requires n >= 1
    ensures -(n as int) < r < n
    ensures a >= 0 ==> r == a % n
    ensures a < 0 ==> r <= 0 && r == -((-a) % n)
  {
    if a >= 0 then a % n else -((-a) % n)
  }

  // --------------------------------------------------------------- Scanner

  /** `Math.abs((frame % (count * 2)) - count)`: the centre of the beam. */
  function ScannerCentre(frame: nat, count: nat): (pos: nat)
    requires count >= 1
    ensures pos <= count
  {
    Abs(frame % (count * 2) - count)
  }

  /** `Math.max(0, 255 - distance * 50)`. */
  function ScannerLevel(distance: nat): (level: Channel)
    ensures level > 0 <==> distance <= 5
  {
    if 255 - distance * 50 > 0 then 255 - distance * 50 else 0
  }

  /** Scanner: a red beam whose level falls off with the distance to the centre. */
  function Scanner(frame: nat, count: nat): (leds: seq<RGB>)
    requires count >= 1
    ensures |leds| == count
    ensures forall i :: 0 <= i < count ==> leds[i].g == 0 && leds[i].b == 0
  {
    var pos := ScannerCentre(frame, count);
    seq(count, i requires 0 <= i < count => RGB(ScannerLevel(Abs(i - pos)), 0, 0))
  }

  /** The beam lights exactly the LEDs within five places of its centre, and
      an LED nearer the centre is never dimmer than one further away. */
  lemma ScannerMask(frame: nat, count: nat)
    requires count >= 1
    ensures forall i :: 0 <= i < count ==>
      (Scanner(frame, count)[i] != Black <==> Abs(i - ScannerCentre(frame, count)) <= 5)
    ensures forall i, j ::
      (0 <= i < count && 0 <= j < count &&
       Abs(i - ScannerCentre(frame, count)) <= Abs(j - ScannerCentre(frame, count))) ==>
      Scanner(frame, count)[i].r >= Scanner(frame, count)[j].r
  {
    var pos, leds := ScannerCentre(frame, count), Scanner(frame, count);
    forall i | 0 <= i < count ensures leds[i] == RGB(ScannerLevel(Abs(i - pos)), 0, 0) { }
  }

  /** The centre moves one place per frame, down from count to 0 and back. */
  lemma ScannerBounce(frame: nat, count: nat)
    requires count >= 1
    ensures frame % (count * 2) < count ==> ScannerCentre(frame + 1, count) == ScannerCentre(frame, count) - 1
    ensures frame % (count * 2) >= count ==> ScannerCentre(frame + 1, count) == ScannerCentre(frame, count) + 1
    ensures ScannerCentre(frame + count * 2, count) == ScannerCentre(frame, count)
  {
    var n := count * 2;
    ModStep(frame, n);
    ModPeriod(frame, n);
  }

  // ------------------------------------------------------------ Color Wipe

  const WipeColors: seq<RGB> := [Red, Green, Blue, Yellow]

  /** Color Wipe: LEDs 0..frame % count in the colour of the current sweep. */
  function ColorWipe(frame: nat, count: nat): (leds: seq<RGB>)
    requires count >= 1
    ensures |leds| == count
  {
    var colorIndex := (frame / count) % |WipeColors|;
    var pos := frame % count;
    seq(count, i requires 0 <= i < count => if i <= pos then WipeColors[colorIndex] else Black)
  }

  /** The lit LEDs are exactly 0..frame % count, all in sweep colour
      (frame / count) % 4. */
  lemma ColorWipeMask(frame: nat, count: nat)
    requires count >= 1
    ensures forall i :: 0 <= i < count ==> (ColorWipe(frame, count)[i] != Black <==> i <= frame % count)
    ensures forall i :: 0 <= i <= frame % count ==> ColorWipe(frame, count)[i] == WipeColors[(frame / count) % 4]
  {
    var leds := ColorWipe(frame, count);
    forall i | 0 <= i <= frame % count ensures leds[i] != Black {
      assert leds[i] == WipeColors[(frame / count) % 4];
    }
  }

  /** Each frame lights one more LED in the same colour; after the last LED
      the next sweep starts again from LED 0 in the next colour. */
  lemma ColorWipeStep(frame: nat, count: nat)
    requires count >= 1
    ensures frame % count < count - 1 ==>
      Lit(ColorWipe(frame + 1, count)) == Lit(ColorWipe(frame, count)) + {frame % count + 1}
    ensures frame % count < count - 1 ==>
      ColorWipe(frame + 1, count)[0] == ColorWipe(frame, count)[0]
    ensures frame % count == count - 1 ==>
      Lit(ColorWipe(frame + 1, count)) == {0} &&
      ColorWipe(frame + 1, count)[0] == WipeColors[((frame / count) + 1) % 4]
  {
    ModStep(frame, count);
    ColorWipeMask(frame, count);
    ColorWipeMask(frame + 1, count);
  }

  // ----------------------------------------------------------------- Chase

  const Amber := RGB(255, 100, 0)

  /** Chase: every third LED amber, the pattern moving one place per frame. */
  function Chase(frame: nat, count: nat): (leds: seq<RGB>)
    requires count >= 1
    ensures |leds| == count
    ensures forall i :: 0 <= i < count ==> (leds[i] != Black <==> (i + frame) % 3 == 0)
  {
    seq(count, i requires 0 <= i < count => if (i + frame) % 3 == 0 then Amber else Black)
  }

  /** The next frame is this one shifted down by one LED, and every third
      frame repeats. */
  lemma ChaseMoves(frame: nat, count: nat)
    requires count >= 1
    ensures forall i :: 1 <= i < count ==> Chase(frame + 1, count)[i - 1] == Chase(frame, count)[i]
    ensures Chase(frame + 3, count) == Chase(frame, count)
  {
    var now, later := Chase(frame, count), Chase(frame + 3, count);
    forall i | 0 <= i < count ensures later[i] == now[i] {
      ModPeriod(i + frame, 3);
    }
  }

  // ---------------------------------------------------------------- Meteor

  const TailNear := RGB(100, 100, 255)
  const TailMid := RGB(50, 50, 200)
  const TailFar := RGB(20, 20, 100)

  /** `frame % (count + 10)`: the head runs ten places past the end. */
  function MeteorHead(frame: nat, count: nat): (pos: nat)
    ensures pos < count + 10
  {
    frame % (count + 10)
  }

  /** Meteor: a white head and a three-LED tail that fades behind it. */
  function Meteor(frame: nat, count: nat): (leds: seq<RGB>)
    requires count >= 1
    ensures |leds| == count
  {
    var pos := MeteorHead(frame, count);
    seq(count, i requires 0 <= i < count =>
      if i == pos then White
      else if i == pos - 1 then TailNear
      else if i == pos - 2 then TailMid
      else if i == pos - 3 then TailFar
      else Black)
  }

  /** The lit LEDs are the head and the three behind it that are on the strip;
      the tail gets dimmer away from the head; once the head is three places
      past the end the strip is dark until it wraps. */
  lemma MeteorMask(frame: nat, count: nat)
    requires count >= 1
    ensures forall i :: 0 <= i < count ==>
      (Meteor(frame, count)[i] != Black <==> MeteorHead(frame, count) - 3 <= i <= MeteorHead(frame, count))
    ensures forall i :: 0 <= i < count - 1 && i + 1 in Lit(Meteor(frame, count)) && i in Lit(Meteor(frame, count)) ==>
      Meteor(frame, count)[i].r < Meteor(frame, count)[i + 1].r
    ensures MeteorHead(frame, count) >= count + 3 ==> Lit(Meteor(frame, count)) == {}
  {
  }

  // ---------------------------------------------------------- Spinning Dot

  /** Spinning Dot: one white LED at frame % count. */
  function SpinningDot(frame: nat, count: nat): (leds: seq<RGB>)
    requires count >= 1
    ensures |leds| == count
  {
    var pos := frame % count;
    seq(count, i requires 0 <= i < count => if i == pos then White else Black)
  }

  /** Exactly one LED is lit, at frame % count, and it moves on by one each
      frame, wrapping round the ring. */
  lemma SpinningDotMask(frame: nat, count: nat)
    requires count >= 1
    ensures Lit(SpinningDot(frame, count)) == {frame % count}
    ensures SpinningDot(frame, count)[frame % count] == White
    ensures Lit(SpinningDot(frame + 1, count)) == {if frame % count == count - 1 then 0 else frame % count + 1}
  {
    ModStep(frame, count);
  }

  // ----------------------------------------------------------------- Clock

  /** `Math.floor((frame / 12) % count)`: for a non-negative frame the floor of
      the fractional remainder is the remainder of the whole quotient. */
  function HourHand(frame: nat, count: nat): (h: nat)
    requires count >= 1
    ensures h < count
  {
    (frame / 12) % count
  }

  function MinuteHand(frame: nat, count: nat): (m: nat)
    requires count >= 1
    ensures m < count
  {
    frame % count
  }

  /** Clock: the hour hand red, the minute hand green, the hour hand on top. */
  function Clock(frame: nat, count: nat): (leds: seq<RGB>)
    requires count >= 1
    ensures |leds| == count
  {
    var hourHand := HourHand(frame, count);
    var minuteHand := MinuteHand(frame, count);
    seq(count, i requires 0 <= i < count =>
      if i == hourHand then Red else if i == minuteHand then Green else Black)
  }

  lemma ClockMask(frame: nat, count: nat)
    requires count >= 1
    ensures Lit(Clock(frame, count)) == {HourHand(frame, count), MinuteHand(frame, count)}
    ensures Clock(frame, count)[HourHand(frame, count)] == Red
    ensures MinuteHand(frame, count) != HourHand(frame, count) ==> Clock(frame, count)[MinuteHand(frame, count)] == Green
  {
  }

  /** The minute hand moves every frame, the hour hand every twelfth. */
  lemma SuccMod(h: nat, count: nat)
    requires h < count
    ensures (h + 1) % count == if h == count - 1 then 0 else h + 1
  {
    if h == count - 1 {
      DivModUnique(h + 1, count, 1, 0);
    } else {
      DivModUnique(h + 1, count, 0, h + 1);
    }
  }

  /** The minute hand moves on one LED every frame. */
  lemma MinuteHandStep(frame: nat, count: nat)
    requires count >= 1
    ensures MinuteHand(frame + 1, count) == (MinuteHand(frame, count) + 1) % count
  {
    ModStep(frame, count);
    SuccMod(MinuteHand(frame, count), count);
  }

  /** The hour hand moves on one LED every twelfth frame and stays put otherwise. */
  lemma HourHandStep(frame: nat, count: nat)
    requires count >= 1
    ensures (frame + 1) % 12 != 0 ==> HourHand(frame + 1, count) == HourHand(frame, count)
    ensures (frame + 1) % 12 == 0 ==> HourHand(frame + 1, count) == (HourHand(frame, count) + 1) % count
  {
    ModStep(frame, 12);
    var q := frame / 12;
    if (frame + 1) % 12 == 0 {
      assert (frame + 1) / 12 == q + 1;
      ModStep(q, count);
      SuccMod(q % count, count);
    } else {
      assert (frame + 1) / 12 == q;
    }
  }

  // --------------------------------------------------------- Opposite Spin

  /** Opposite Spin exactly as written: the blue position is the truncated
      remainder `(count - frame) % count`, negative once frame passes count. */
  function OppositeSpinAsWritten(frame: nat, count: nat): (leds: seq<RGB>)
    requires count >= 1
    ensures |leds| == count
  {
    var pos1 := frame % count;
    var pos2 := JsRem(count - frame, count);
    seq(count, i requires 0 <= i < count =>
      if i == pos1 then Red else if i == pos2 then Blue else Black)
  }

  /** After the first turn the blue dot never shows again. */
  lemma OppositeSpinAsWrittenLosesBlue(frame: nat, count: nat)
    requires count >= 1 && frame >= count
    ensures forall i :: 0 <= i < count ==> OppositeSpinAsWritten(frame, count)[i] != Blue
  {
    var pos2 := JsRem(count - frame, count);
    if pos2 == 0 {
      DivModUnique(frame - count, count, (frame - count) / count, 0);
      DivModUnique(frame, count, (frame - count) / count + 1, 0);
    }
  }

  /** Eight LEDs, frame 9: the red dot is at 1 and no LED is blue, where the
      mirrored dot belongs at 7. */
  lemma OppositeSpinAsWrittenExample()
    ensures OppositeSpinAsWritten(9, 8)[1] == Red
    ensures forall i :: 0 <= i < 8 ==> OppositeSpinAsWritten(9, 8)[i] != Blue
    ensures OppositeSpin(9, 8)[7] == Blue
  {
    OppositeSpinAsWrittenLosesBlue(9, 8);
  }

  /** The blue position mirrored through LED 0: `(count - frame % count) % count`. */
  function MirrorPos(frame: nat, count: nat): (p: nat)
    requires count >= 1
    ensures p < count
    ensures (frame % count + p) % count == 0
  {
    var m := frame % count;
    if m == 0 then
      0
    else
      DivModUnique(count - m, count, 0, count - m);
      DivModUnique(count, count, 1, 0);
      (count - m) % count
  }

  /** Opposite Spin with the blue dot mirroring the red one on every turn. */
  function OppositeSpin(frame: nat, count: nat): (leds: seq<RGB>)
    requires count >= 1
    ensures |leds| == count
  {
    var pos1 := frame % count;
    var pos2 := MirrorPos(frame, count);
    seq(count, i requires 0 <= i < count =>
      if i == pos1 then Red else if i == pos2 then Blue else Black)
  }

  /** Red at frame % count and blue at its mirror image, on every frame. */
  lemma OppositeSpinMask(frame: nat, count: nat)
    requires count >= 1
    ensures Lit(OppositeSpin(frame, count)) == {frame % count, MirrorPos(frame, count)}
    ensures OppositeSpin(frame, count)[frame % count] == Red
    ensures MirrorPos(frame, count) != frame % count ==> OppositeSpin(frame, count)[MirrorPos(frame, count)] == Blue
  {
  }

  /** During the first turn the written frames are the intended ones. */
  lemma OppositeSpinFirstTurn(frame: nat, count: nat)
    requires count >= 1 && frame <= count
    ensures OppositeSpinAsWritten(frame, count) == OppositeSpin(frame, count)
  {
    if frame == count {
      DivModUnique(frame, count, 1, 0);
    } else {
      DivModUnique(frame, count, 0, frame);
    }
  }

  // ------------------------------------------------------------- Ring Fill

  /** The number of cyan LEDs: climbs to count over count frames, then falls back. */
  function FillLevel(frame: nat, count: nat): (level: nat)
    requires count >= 1
    ensures level <= count
  {
    var fillAmount := frame % (count * 2);
    if fillAmount <= count then fillAmount else count * 2 - fillAmount
  }

  const Cyan := RGB(0, 255, 255)

  /** Ring Fill: the first FillLevel LEDs cyan, the rest dark. */
  function RingFill(frame: nat, count: nat): (leds: seq<RGB>)
    requires count >= 1
    ensures |leds| == count
    ensures forall i :: 0 <= i < count ==> (leds[i] != Black <==> i < FillLevel(frame, count))
  {
    var currentCount := FillLevel(frame, count);
    seq(count, i requires 0 <= i < count => if i < currentCount then Cyan else Black)
  }

  /** The level rises by one per frame up to count, then falls by one to 0,
      with period 2 * count. */
  lemma FillLevelStep(frame: nat, count: nat)
    requires count >= 1
    ensures frame % (count * 2) < count ==> FillLevel(frame + 1, count) == FillLevel(frame, count) + 1
    ensures frame % (count * 2) >= count ==> FillLevel(frame + 1, count) == FillLevel(frame, count) - 1
    ensures FillLevel(frame + count * 2, count) == FillLevel(frame, count)
  {
    var n := count * 2;
    ModStep(frame, n);
    ModPeriod(frame, n);
  }

  // --------------------------------------------------------------- Compass

  const Dim := RGB(10, 10, 10)

  /** Compass: north red, south green, east blue, west yellow at the quarter
      points, earlier marks taking precedence where they fall together, and
      every other LED dim white. The frame does not move it. */
  function Compass(frame: nat, count: nat): (leds: seq<RGB>)
    requires count >= 1
    ensures |leds| == count
    ensures leds[0] == Red
    ensures count >= 4 ==> leds[count / 4] == Blue && leds[count / 2] == Green && leds[3 * count / 4] == Yellow
    ensures forall i :: 0 <= i < count ==> (leds[i] == Dim <==> i != 0 && i != count / 2 && i != count / 4 && i != 3 * count / 4)
  {
    var north, south, east, west := 0, count / 2, count / 4, 3 * count / 4;
    seq(count, i requires 0 <= i < count =>
      if i == north then Red
      else if i == south then Green
      else if i == east then Blue
      else if i == west then Yellow
      else Dim)
  }

  // ---------------------------------------------------------- Checkerboard

  function CeilSqrtFrom(n: nat, s: nat): (r: nat)
    requires s == 0 || (s - 1) * (s - 1) < n
    ensures r * r >= n && (r == 0 || (r - 1) * (r - 1) < n)
    decreases n - s
  {
    if s * s >= n then s else CeilSqrtFrom(n, s + 1)
  }

  /** `Math.ceil(Math.sqrt(n))`: the least s with s * s >= n. */
  function CeilSqrt(n: nat): (s: nat)
    ensures s * s >= n
    ensures s == 0 || (s - 1) * (s - 1) < n
  {
    CeilSqrtFrom(n, 0)
  }

  /** The side of the square grid the matrix patterns lay the LEDs on. */
  function GridSize(count: nat): (size: nat)
    requires count >= 1
    ensures size >= 1 && size * size >= count
  {
    CeilSqrt(count)
  }

  function Invert(c: RGB): RGB {
    if c == White then Black else White
  }

  /** Checkerboard: LED i at column i % size, row i / size is white on the
      squares of one colour and dark on the others. */
  function Checkerboard(frame: nat, count: nat): (leds: seq<RGB>)
    requires count >= 1
    ensures |leds| == count
    ensures forall i :: 0 <= i < count ==> leds[i] == White || leds[i] == Black
  {
    var size := GridSize(count);
    seq(count, i requires 0 <= i < count =>
      var x, y := i % size, i / size;
      if (x + y + frame) % 2 == 0 then White else Black)
  }

  /** LED i is white exactly when column + row + frame is even. */
  lemma CheckerboardCell(frame: nat, count: nat, i: nat)
    requires count >= 1 && i < count
    ensures Checkerboard(frame, count)[i] == White <==> Parity(GridSize(count), i, frame) == 0
  {
  }

  /** The square colour of cell i on a grid of the given side, shifted by frame. */
  function Parity(size: nat, i: nat, frame: nat): (p: nat)
    requires size >= 1
    ensures p < 2
  {
    (i % size + i / size + frame) % 2
  }

  lemma ParityFlips(k: nat)
    ensures (k + 1) % 2 != k % 2
    ensures (k + 2) % 2 == k % 2
  {
    ModStep(k, 2);
    ModPeriod(k, 2);
  }

  lemma ParityNeighbours(size: nat, i: nat, frame: nat)
    requires size >= 1
    ensures Parity(size, i, frame + 1) != Parity(size, i, frame)
    ensures Parity(size, i, frame + 2) == Parity(size, i, frame)
    ensures (i + 1) % size != 0 ==> Parity(size, i + 1, frame) != Parity(size, i, frame)
    ensures Parity(size, i + size, frame) != Parity(size, i, frame)
  {
    var k := i % size + i / size + frame;
    ParityFlips(k);
    ModStep(i, size);
    ModPeriod(i, size);
  }

  /** Every frame swaps white and dark, and the pattern repeats every two frames. */
  lemma CheckerboardFlips(frame: nat, count: nat)
    requires count >= 1
    ensures forall i :: 0 <= i < count ==> Checkerboard(frame + 1, count)[i] == Invert(Checkerboard(frame, count)[i])
    ensures Checkerboard(frame + 2, count) == Checkerboard(frame, count)
  {
    var now, next, later := Checkerboard(frame, count), Checkerboard(frame + 1, count), Checkerboard(frame + 2, count);
    forall i | 0 <= i < count ensures next[i] == Invert(now[i]) && later[i] == now[i] {
      ParityNeighbours(GridSize(count), i, frame);
      CheckerboardCell(frame, count, i);
      CheckerboardCell(frame + 1, count, i);
      CheckerboardCell(frame + 2, count, i);
    }
  }

  /** Neighbours in a row always differ. */
  lemma CheckerboardRowNeighbours(frame: nat, count: nat, i: nat)
    requires count >= 1 && i + 1 < count && (i + 1) % GridSize(count) != 0
    ensures Checkerboard(frame, count)[i + 1] != Checkerboard(frame, count)[i]
  {
    ParityNeighbours(GridSize(count), i, frame);
    CheckerboardCell(frame, count, i);
    CheckerboardCell(frame, count, i + 1);
  }

  /** Neighbours in a column always differ. */
  lemma CheckerboardColumnNeighbours(frame: nat, count: nat, i: nat)
    requires count >= 1 && i + GridSize(count) < count
    ensures Checkerboard(frame, count)[i + GridSize(count)] != Checkerboard(frame, count)[i]
  {
    ParityNeighbours(GridSize(count), i, frame);
    CheckerboardCell(frame, count, i);
    CheckerboardCell(frame, count, i + GridSize(count));
  }

  // ------------------------------------------------------- Diagonal Sweep

  /** Diagonal Sweep: magenta on the three diagonals after `diagonal == 0`,
      255, 175 and 95 bright. */
  function DiagonalSweep(frame: nat, count: nat): (leds: seq<RGB>)
    requires count >= 1
    ensures |leds| == count
  {
    var size := GridSize(count);
    seq(count, i requires 0 <= i < count =>
      var x, y := i % size, i / size;
      var diagonal := (x + y + frame) % (size * 2);
      var brightness := if diagonal < 3 then 255 - diagonal * 80 else 0;
      RGB(brightness, 0, brightness))
  }

  /** An LED is lit exactly on the three leading diagonals. */
  lemma DiagonalSweepMask(frame: nat, count: nat)
    requires count >= 1
    ensures forall i :: 0 <= i < count ==>
      (i in Lit(DiagonalSweep(frame, count)) <==>
       (i % GridSize(count) + i / GridSize(count) + frame) % (GridSize(count) * 2) < 3)
  {
  }

  /** Within a row, the next LED's column is one further on. */
  lemma NextInRow(i: nat, size: nat)
    requires size >= 1 && (i + 1) % size != 0
    ensures (i + 1) % size == i % size + 1 && (i + 1) / size == i / size
  {
    ModStep(i, size);
  }

  /** The sweep moves one LED towards the start of each row per frame. */
  lemma DiagonalSweepMovesAlongRow(frame: nat, count: nat, i: nat)
    requires count >= 1 && i + 1 < count && (i + 1) % GridSize(count) != 0
    ensures DiagonalSweep(frame + 1, count)[i] == DiagonalSweep(frame, count)[i + 1]
  {
    NextInRow(i, GridSize(count));
  }

  /** The sweep moves one LED up each column per frame. */
  lemma DiagonalSweepMovesAlongColumn(frame: nat, count: nat, i: nat)
    requires count >= 1 && i + GridSize(count) < count
    ensures DiagonalSweep(frame + 1, count)[i] == DiagonalSweep(frame, count)[i + GridSize(count)]
  {
    ModPeriod(i, GridSize(count));
  }

  /** The sweep repeats every 2 * size frames. */
  lemma DiagonalSweepPeriod(frame: nat, count: nat)
    requires count >= 1
    ensures DiagonalSweep(frame + 2 * GridSize(count), count) == DiagonalSweep(frame, count)
  {
    var size := GridSize(count);
    forall i | 0 <= i < count
      ensures DiagonalSweep(frame + 2 * size, count)[i] == DiagonalSweep(frame, count)[i]
    {
      var d := i % size + i / size + frame;
      ModPeriod(d, size * 2);
      assert i % size + i / size + (frame + 2 * size) == d + size * 2;
    }
  }

  // ---------------------------------------------------------- Matrix Rain

  /** The row of column x's drop on a grid of the given side: `(frame + x * 3) % (size + 5)`. */
  function DropRow(frame: nat, size: nat, x: nat): (row: nat)
    ensures row < size + 5
  {
    (frame + x * 3) % (size + 5)
  }

  /** Matrix Rain: in column x a green drop at DropRow, with a two-row trail
      of 128 and 64 above it. */
  function MatrixRain(frame: nat, count: nat): (leds: seq<RGB>)
    requires count >= 1
    ensures |leds| == count
  {
    var size := GridSize(count);
    seq(count, i requires 0 <= i < count =>
      var x, y := i % size, i / size;
      var dropPos := DropRow(frame, size, x);
      var brightness := if y == dropPos then 255 else if y == dropPos - 1 then 128 else if y == dropPos - 2 then 64 else 0;
      RGB(0, brightness, 0))
  }

  /** Only green is used, and an LED is fully bright exactly at its column's drop. */
  lemma MatrixRainDrops(frame: nat, count: nat)
    requires count >= 1
    ensures forall i :: 0 <= i < count ==> MatrixRain(frame, count)[i].r == 0 && MatrixRain(frame, count)[i].b == 0
    ensures forall i :: 0 <= i < count ==>
      (MatrixRain(frame, count)[i].g == 255 <==>
       i / GridSize(count) == DropRow(frame, GridSize(count), i % GridSize(count)))
  {
  }

  /** Every LED lies in a row of the grid. */
  lemma RowInGrid(count: nat, i: nat)
    requires count >= 1 && i < count
    ensures i / GridSize(count) < GridSize(count)
  {
    var size := GridSize(count);
    if i / size >= size {
      MulMonotone(size - 1, i / size, size);
      assert false;
    }
  }

  /** Each drop falls one row per frame, back to row 0 after row size + 4. */
  lemma DropRowStep(frame: nat, size: nat, x: nat)
    ensures DropRow(frame + 1, size, x) == (DropRow(frame, size, x) + 1) % (size + 5)
  {
    var a, n := frame + x * 3, size + 5;
    assert DropRow(frame + 1, size, x) == (a + 1) % n;
    ModStep(a, n);
    SuccMod(a % n, n);
  }

  /** Each drop is back in its row after size + 5 frames. */
  lemma DropRowPeriod(frame: nat, size: nat, x: nat)
    ensures DropRow(frame + size + 5, size, x) == DropRow(frame, size, x)
  {
    var a, n := frame + x * 3, size + 5;
    assert DropRow(frame + size + 5, size, x) == (a + n) % n;
    ModPeriod(a, n);
  }

  /** The rain repeats every size + 5 frames. */
  lemma MatrixRainPeriod(frame: nat, count: nat)
    requires count >= 1
    ensures MatrixRain(frame + GridSize(count) + 5, count) == MatrixRain(frame, count)
  {
    var size := GridSize(count);
    forall i | 0 <= i < count
      ensures MatrixRain(frame + size + 5, count)[i] == MatrixRain(frame, count)[i]
    {
      DropRowPeriod(frame, size, i % size);
    }
  }

  /** A fully bright LED passes its brightness to the LED below it in the
      next frame and becomes the first trail LED itself. */
  lemma MatrixRainFalls(frame: nat, count: nat, i: nat)
    requires count >= 1 && i + GridSize(count) < count
    requires MatrixRain(frame, count)[i].g == 255
    ensures MatrixRain(frame + 1, count)[i + GridSize(count)].g == 255
    ensures MatrixRain(frame + 1, count)[i].g == 128
  {
    var size := GridSize(count);
    RowInGrid(count, i + size);
    ModPeriod(i, size);
    var drop := DropRow(frame, size, i % size);
    DropRowStep(frame, size, i % size);
    SuccMod(drop, size + 5);
  }
}
