/** The pattern lists of `getPatterns` (ws2812b-led-control/script.js) and the
    frame each integer pattern shows. */
module PatternCatalog {
  import opened LedColor
  import LedPatterns

  /** Every pattern the controller offers, by name. */
  datatype Pattern =
    // the strip list
    | RainbowWave | FireEffect | Scanner | ColorWipe | Breathing
    | Chase | Twinkle | Meteor | FadeColors | Wave
    // the ring list
    | RotateRainbow | PulseRing | SpinningDot | Clock | OppositeSpin
    | RingFill | Compass | RingWave | Orbit | RingBounce
    // the matrix list
    | MatrixRain | DiagonalSweep | Spiral | Checkerboard | ConcentricCircles
    | MatrixPulse | RandomMatrix | MatrixWave | MatrixExplosion | MatrixClock | MatrixSnake

  /** The three layouts the arrangement selector distinguishes. */
  datatype Layout = Strip | Ring | Matrix

  /** The `switch` on the arrangement: anything but 'ring' or 'matrix' is a strip. */
  function LayoutOf(arrangement: string): Layout {
    if arrangement == "ring" then Ring
    else if arrangement == "matrix" then Matrix
    else Strip
  }

  /** The layout each pattern is written for, pattern by pattern. */
  function FamilyOf(p: Pattern): Layout {
    match p
    case RainbowWave | FireEffect | Scanner | ColorWipe | Breathing
      | Chase | Twinkle | Meteor | FadeColors | Wave => Strip
    case RotateRainbow | PulseRing | SpinningDot | Clock | OppositeSpin
      | RingFill | Compass | RingWave | Orbit | RingBounce => Ring
    case MatrixRain | DiagonalSweep | Spiral | Checkerboard | ConcentricCircles
      | MatrixPulse | RandomMatrix | MatrixWave | MatrixExplosion | MatrixClock | MatrixSnake => Matrix
  }

  const StripPatterns: seq<Pattern> :=
    [RainbowWave, FireEffect, Scanner, ColorWipe, Breathing, Chase, Twinkle, Meteor, FadeColors, Wave]

  const RingPatterns: seq<Pattern> :=
    [RotateRainbow, PulseRing, SpinningDot, Clock, OppositeSpin, RingFill, Compass, RingWave, Orbit, RingBounce]

  const MatrixPatterns: seq<Pattern> :=
    [MatrixRain, DiagonalSweep, Spiral, Checkerboard, ConcentricCircles,
     MatrixPulse, RandomMatrix, MatrixWave, MatrixExplosion, MatrixClock, MatrixSnake]

  /** `getPatterns`: the list for the arrangement's layout. Each list offers
      every pattern of its layout exactly once and nothing else. */
  function GetPatterns(arrangement: string): (ps: seq<Pattern>)
    ensures |ps| >= 10
    ensures forall p :: p in ps <==> FamilyOf(p) == LayoutOf(arrangement)
    ensures forall i, j :: 0 <= i < j < |ps| ==> ps[i] != ps[j]
  {
    match LayoutOf(arrangement)
    case Ring => RingPatterns
    case Matrix => MatrixPatterns
    case Strip => StripPatterns
  }

  /** Two arrangements get the same list exactly when they select the same layout. */
  lemma GetPatternsSeparates(a: string, b: string)
    ensures GetPatterns(a) == GetPatterns(b) <==> LayoutOf(a) == LayoutOf(b)
  {
    if LayoutOf(a) != LayoutOf(b) {
      var p := GetPatterns(a)[0];
      assert p in GetPatterns(a);
      assert p !in GetPatterns(b);
    }
  }

  /** The patterns whose frames use integer arithmetic only. */
  predicate IsIntegerPattern(p: Pattern) {
    p in {Scanner, ColorWipe, Chase, Meteor, SpinningDot, Clock, OppositeSpin,
          RingFill, Compass, MatrixRain, DiagonalSweep, Checkerboard}
  }

  /** `pattern.update(frame, count)` for the integer patterns; the others are
      not part of this model. Opposite Spin shows the mirrored blue dot. */
  function Update(p: Pattern, frame: nat, count: nat): (leds: Option<seq<RGB>>)
    requires count >= 1
    ensures leds.Some? <==> IsIntegerPattern(p)
    ensures leds.Some? ==> |leds.value| == count
  {
    match p
    case Scanner => Some(LedPatterns.Scanner(frame, count))
    case ColorWipe => Some(LedPatterns.ColorWipe(frame, count))
    case Chase => Some(LedPatterns.Chase(frame, count))
    case Meteor => Some(LedPatterns.Meteor(frame, count))
    case SpinningDot => Some(LedPatterns.SpinningDot(frame, count))
    case Clock => Some(LedPatterns.Clock(frame, count))
    case OppositeSpin => Some(LedPatterns.OppositeSpin(frame, count))
    case RingFill => Some(LedPatterns.RingFill(frame, count))
    case Compass => Some(LedPatterns.Compass(frame, count))
    case MatrixRain => Some(LedPatterns.MatrixRain(frame, count))
    case DiagonalSweep => Some(LedPatterns.DiagonalSweep(frame, count))
    case Checkerboard => Some(LedPatterns.Checkerboard(frame, count))
    case _ => None
  }
}
