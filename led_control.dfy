/** The state of the WS2812B page controller (`LEDController` in
    ws2812b-led-control/script.js) and the methods that change it: the LED
    colours, the LED count, the brightness, the layout and its pattern list,
    whether a pattern animation is running, and the lines written to the
    serial port. */
module LedControl {
  import opened Text
  import opened LedColor
  import opened PatternCatalog

  /** `Array(n).fill().map(() => ({r: 0, g: 0, b: 0}))`. */
  function AllBlack(n: nat): (leds: seq<RGB>)
    ensures |leds| == n
    ensures forall i :: 0 <= i < n ==> leds[i] == Black
  {
    seq(n, _ => Black)
  }

  class LedController {
    var ledCount: nat
    var arrangement: string
    var ledStates: seq<RGB>
    var patterns: seq<Pattern>
    var brightness: int
    /** `currentPattern !== null`: an animation interval is installed. */
    var patternRunning: bool
    /** The pattern the interval replays and the frame it shows next. */
    var running: Pattern
    var frame: nat
    /** `writer !== null`: a serial port is open. */
    var connected: bool
    /** Every line written to the port, oldest first. */
    var sent: seq<string>

    /** One colour per LED, a usable count and brightness, and the pattern
        list of the current arrangement. */
    ghost predicate Valid()
      reads this
    {
      && ledCount >= 1
      && 0 <= brightness <= 255
      && |ledStates| == ledCount
      && patterns == GetPatterns(arrangement)
    }

    /** What `sendCommand` adds to the log: the framed line, or nothing
        without a port. */
    function Sends(command: string): (lines: seq<string>)
      reads this
      ensures connected ==> lines == [Framed(command)]
      ensures !connected ==> lines == []
    {
      if connected then [Framed(command)] else []
    }

    /** The page's start-up state: eight dark LEDs on a ring, half
        brightness, no port and no animation. */
    constructor()
      ensures Valid()
      ensures ledCount == 8 && brightness == 128 && arrangement == "ring"
      ensures ledStates == AllBlack(8)
      ensures patterns == RingPatterns
      ensures !patternRunning && !connected && sent == []
    {
      ledCount := 8;
      arrangement := "ring";
      brightness := 128;
      patternRunning := false;
      running := RotateRainbow;
      frame := 0;
      connected := false;
      sent := [];
      ledStates := AllBlack(8);
      patterns := GetPatterns("ring");
    }

    /** `sendCommand`: with a port open, the command and a CR LF go out. */
    method SendCommand(command: string)
      modifies this
      ensures sent == old(sent) + old(Sends(command))
      ensures ledCount == old(ledCount) && arrangement == old(arrangement) && ledStates == old(ledStates)
      ensures patterns == old(patterns) && brightness == old(brightness)
      ensures patternRunning == old(patternRunning) && running == old(running) && frame == old(frame)
      ensures connected == old(connected)
    {
      if connected {
        sent := sent + [Framed(command)];
      }
    }

    /** `sendLEDData`: one command holding every LED, brightness applied. */
    method SendLedData()
      requires 0 <= brightness <= 255
      modifies this
      ensures sent == old(sent) + old(Sends(FrameCommand(ledStates, brightness)))
      ensures ledCount == old(ledCount) && arrangement == old(arrangement) && ledStates == old(ledStates)
      ensures patterns == old(patterns) && brightness == old(brightness)
      ensures patternRunning == old(patternRunning) && running == old(running) && frame == old(frame)
      ensures connected == old(connected)
    {
      var commands := FrameCommand(ledStates, brightness);
      SendCommand(commands);
    }

    /** `initializeLEDs`: ledCount dark LEDs, and the arrangement back to 'ring'. */
    method InitializeLeds()
      modifies this
      ensures ledStates == AllBlack(ledCount)
      ensures arrangement == "ring"
      ensures ledCount == old(ledCount) && patterns == old(patterns) && brightness == old(brightness)
      ensures patternRunning == old(patternRunning) && running == old(running) && frame == old(frame)
      ensures connected == old(connected) && sent == old(sent)
    {
      ledStates := AllBlack(ledCount);
      arrangement := "ring";
    }

    /** `loadPatterns`: the pattern list of the current arrangement. */
    method LoadPatterns()
      modifies this
      ensures patterns == GetPatterns(arrangement)
      ensures ledCount == old(ledCount) && arrangement == old(arrangement) && ledStates == old(ledStates)
      ensures brightness == old(brightness)
      ensures patternRunning == old(patternRunning) && running == old(running) && frame == old(frame)
      ensures connected == old(connected) && sent == old(sent)
    {
      patterns := GetPatterns(arrangement);
    }

    /** `updateLayout`: a new count and arrangement, then `initializeLEDs`,
        which puts the arrangement back to 'ring', so the ring patterns load
        whatever was chosen; the new count goes to the port. */
    method UpdateLayout(count: nat, chosen: string)
      requires Valid() && count >= 1
      modifies this
      ensures Valid()
      ensures ledCount == count && ledStates == AllBlack(count)
      ensures arrangement == "ring" && patterns == RingPatterns
      ensures sent == old(sent) + old(Sends("led_count:" + Decimal(count)))
      ensures brightness == old(brightness) && connected == old(connected)
      ensures patternRunning == old(patternRunning) && running == old(running) && frame == old(frame)
    {
      ledCount := count;
      arrangement := chosen;
      InitializeLeds();
      LoadPatterns();
      SendCommand("led_count:" + Decimal(ledCount));
    }

    /** `setLEDColor`: LED index takes the picked colour; nothing else changes
        and a running animation keeps running. */
    method SetLedColor(index: nat, picked: string)
      requires Valid() && index < |ledStates|
      modifies this
      ensures Valid()
      ensures |ledStates| == |old(ledStates)|
      ensures ledStates[index] == HexToRgb(picked)
      ensures forall j :: 0 <= j < |ledStates| && j != index ==> ledStates[j] == old(ledStates[j])
      ensures sent == old(sent) + Sends(FrameCommand(ledStates, brightness))
      ensures ledCount == old(ledCount) && arrangement == old(arrangement) && patterns == old(patterns)
      ensures brightness == old(brightness) && connected == old(connected)
      ensures patternRunning == old(patternRunning) && running == old(running) && frame == old(frame)
    {
      var color := HexToRgb(picked);
      ledStates := ledStates[index := color];
      SendLedData();
    }

    /** `fillAllLEDs`: the animation stops and every LED takes the picked colour. */
    method FillAllLeds(picked: string)
      requires Valid()
      modifies this
      ensures Valid()
      ensures !patternRunning
      ensures |ledStates| == |old(ledStates)|
      ensures forall j :: 0 <= j < |ledStates| ==> ledStates[j] == HexToRgb(picked)
      ensures sent == old(sent) + Sends(FrameCommand(ledStates, brightness))
      ensures ledCount == old(ledCount) && arrangement == old(arrangement) && patterns == old(patterns)
      ensures brightness == old(brightness) && connected == old(connected)
      ensures running == old(running) && frame == old(frame)
    {
      if patternRunning {
        patternRunning := false;
      }
      var color := HexToRgb(picked);
      ledStates := seq(|ledStates|, _ => color);
      SendLedData();
    }

    /** `clearAllLEDs`: the animation stops and ledCount dark LEDs are sent. */
    method ClearAllLeds()
      requires Valid()
      modifies this
      ensures Valid()
      ensures !patternRunning
      ensures ledStates == AllBlack(ledCount)
      ensures sent == old(sent) + Sends(FrameCommand(AllBlack(ledCount), brightness))
      ensures ledCount == old(ledCount) && arrangement == old(arrangement) && patterns == old(patterns)
      ensures brightness == old(brightness) && connected == old(connected)
      ensures running == old(running) && frame == old(frame)
    {
      if patternRunning {
        patternRunning := false;
      }
      ledStates := AllBlack(ledCount);
      SendLedData();
    }

    /** `updateBrightness`: the new level goes to the port, then the LEDs
        at that level. */
    method UpdateBrightness(value: int)
      requires Valid() && 0 <= value <= 255
      modifies this
      ensures Valid()
      ensures brightness == value
      ensures sent == old(sent) + old(Sends("brightness:" + Decimal(value)))
                     + old(Sends(FrameCommand(ledStates, value)))
      ensures ledCount == old(ledCount) && arrangement == old(arrangement) && ledStates == old(ledStates)
      ensures patterns == old(patterns) && connected == old(connected)
      ensures patternRunning == old(patternRunning) && running == old(running) && frame == old(frame)
    {
      brightness := value;
      SendCommand("brightness:" + Decimal(brightness));
      SendLedData();
    }

    /** `runPattern`: any running animation is replaced by this one from frame 0. */
    method RunPattern(p: Pattern)
      requires Valid()
      modifies this
      ensures Valid()
      ensures patternRunning && running == p && frame == 0
      ensures ledCount == old(ledCount) && arrangement == old(arrangement) && ledStates == old(ledStates)
      ensures patterns == old(patterns) && brightness == old(brightness)
      ensures connected == old(connected) && sent == old(sent)
    {
      patternRunning := true;
      running := p;
      frame := 0;
    }

    /** One firing of the animation interval: the LEDs show the pattern's
        frame, which is sent, and the frame counter moves on. */
    method Tick()
      requires Valid() && patternRunning && IsIntegerPattern(running)
      modifies this
      ensures Valid()
      ensures patternRunning && running == old(running)
      ensures ledCount == old(ledCount) && arrangement == old(arrangement) && patterns == old(patterns)
      ensures ledStates == Update(running, old(frame), ledCount).value
      ensures frame == old(frame) + 1
      ensures sent == old(sent) + Sends(FrameCommand(ledStates, brightness))
      ensures brightness == old(brightness) && connected == old(connected)
    {
      ledStates := Update(running, frame, ledCount).value;
      SendLedData();
      frame := frame + 1;
    }

    /** `connect`: once the port is open, the LED count and the brightness
        go out (the WebSerial handshake and the reader are not modelled). */
    method Connect()
      requires Valid()
      modifies this
      ensures Valid() && connected
      ensures sent == old(sent) + [Framed("led_count:" + Decimal(ledCount)), Framed("brightness:" + Decimal(brightness))]
      ensures ledCount == old(ledCount) && arrangement == old(arrangement) && ledStates == old(ledStates)
      ensures patterns == old(patterns) && brightness == old(brightness)
      ensures patternRunning == old(patternRunning) && running == old(running) && frame == old(frame)
    {
      connected := true;
      SendCommand("led_count:" + Decimal(ledCount));
      SendCommand("brightness:" + Decimal(brightness));
    }

    /** `disconnect`: the animation stops and the port is released. */
    method Disconnect()
      requires Valid()
      modifies this
      ensures Valid() && !connected && !patternRunning
      ensures ledCount == old(ledCount) && arrangement == old(arrangement) && ledStates == old(ledStates)
      ensures patterns == old(patterns) && brightness == old(brightness) && sent == old(sent)
      ensures running == old(running) && frame == old(frame)
    {
      if patternRunning {
        patternRunning := false;
      }
      connected := false;
    }
  }
}
