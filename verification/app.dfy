/** The application side of `main.cpp`: its reaction to received messages, the LED refresh, the
    hue animation step and the serial-console command menu. GPIO writes, LED refreshes and console
    output are returned as a list of effects; `millis()` is passed in. */
module App {
  import opened Bytes
  import opened BroadcastTypes

  /** `uint32_t`, the type of `millis()` and of the message timestamp. */
  type U32 = x: int | 0 <= x < 0x1_0000_0000

  /** `LED_COUNT`, the length of the LED strip. */
  const LedCount: nat := 64

  /** An LED colour as `Hsv { hue, saturation, value }`. */
  datatype Color = Hsv(hue: Byte, sat: Byte, val: Byte)

  /** Something the application does to the outside world. */
  datatype Effect =
    | DriveRelay(level: bool)                  // gpio_set_level(RELAY_GPIO, level)
    | Show(frame: seq<Color>)                  // leds.show() of the LED buffer
    | LogInfo(tag: string, text: string)       // ESP_LOGI(tag, text)
    | Print(text: string)                      // printf(text)

  /** The globals the application code reads and writes. `relayState` is the function-local static
      of `message_handler`. */
  datatype AppState = AppState(relayState: bool, messageReceived: bool, messageReceivedTime: U32,
                               hue: Byte, brightness: Byte)

  /** The state a transition leaves behind and the effects it performed, in order. */
  datatype Step = Step(state: AppState, effects: seq<Effect>)

  /** Initial values of the globals: relay off, no message seen, hue 0, brightness 1. */
  const Boot := AppState(false, false, 0, 0, 1)

  // ---------------------------------------------------------------------------------------------
  // Reaction to received messages

  /** `message_handler(msg, mac)` called at time `now`. A button-pressed message raises the flash
      flag, stamps it and toggles the relay; every other tag is only logged. */
  function MessageHandler(s: AppState, msg: Message, mac: Mac, now: U32): (r: Step)
    ensures msg.msgType == MsgTypeButtonPressed ==>
      && r.state.relayState == !s.relayState
      && r.state.messageReceived && r.state.messageReceivedTime == now
      && r.state.hue == s.hue && r.state.brightness == s.brightness
      && r.effects == [DriveRelay(r.state.relayState)]
    ensures msg.msgType != MsgTypeButtonPressed ==> r.state == s && r.effects == []
  {
    match msg.msgType
    case 1 =>
      var toggled := !s.relayState;
      Step(s.(messageReceived := true, messageReceivedTime := now, relayState := toggled),
           [DriveRelay(toggled)])
    case _ => Step(s, [])
  }

  /** Two button-pressed messages in a row leave the relay where it was. */
  lemma ToggleTwiceRestores(s: AppState, m1: Message, m2: Message, mac1: Mac, mac2: Mac, t1: U32, t2: U32)
    requires m1.msgType == MsgTypeButtonPressed && m2.msgType == MsgTypeButtonPressed
    ensures MessageHandler(MessageHandler(s, m1, mac1, t1).state, m2, mac2, t2).state.relayState == s.relayState
  {
  }

  /** A received message with its sender and arrival time. */
  datatype Arrival = Arrival(msg: Message, src: Mac, at: U32)

  /** The state after handling `arrivals` one after the other. */
  function HandleAll(s: AppState, arrivals: seq<Arrival>): AppState
    decreases |arrivals|
  {
    if arrivals == [] then s
    else HandleAll(MessageHandler(s, arrivals[0].msg, arrivals[0].src, arrivals[0].at).state, arrivals[1..])
  }

  /** How many of `arrivals` are button-pressed messages. */
  function ButtonPresses(arrivals: seq<Arrival>): nat
  {
    if arrivals == [] then 0
    else (if arrivals[0].msg.msgType == MsgTypeButtonPressed then 1 else 0) + ButtonPresses(arrivals[1..])
  }

  /** The relay ends up flipped exactly when an odd number of button presses arrived; other
      messages never move it. */
  lemma {:induction false} RelayParity(s: AppState, arrivals: seq<Arrival>)
    ensures HandleAll(s, arrivals).relayState == (s.relayState != (ButtonPresses(arrivals) % 2 == 1))
    decreases |arrivals|
  {
    if arrivals != [] {
      var a := arrivals[0];
      RelayParity(MessageHandler(s, a.msg, a.src, a.at).state, arrivals[1..]);
    }
  }

  /** Handling messages from boot leaves the relay on exactly when an odd number of button presses
      arrived. */
  lemma RelayOnAfterOddPresses(arrivals: seq<Arrival>)
    ensures HandleAll(Boot, arrivals).relayState <==> ButtonPresses(arrivals) % 2 == 1
  {
    RelayParity(Boot, arrivals);
  }

  /** Hue and brightness belong to the LED tasks: handling messages never changes them. */
  lemma {:induction false} HandlingKeepsLedSettings(s: AppState, arrivals: seq<Arrival>)
    ensures HandleAll(s, arrivals).hue == s.hue
    ensures HandleAll(s, arrivals).brightness == s.brightness
    decreases |arrivals|
  {
    if arrivals != [] {
      var a := arrivals[0];
      HandlingKeepsLedSettings(MessageHandler(s, a.msg, a.src, a.at).state, arrivals[1..]);
    }
  }

  // ---------------------------------------------------------------------------------------------
  // LEDs

  /** `showColor()`: clears the flash flag, paints every LED with the current hue at full
      saturation and the current brightness, and shows the strip. */
  function ShowColor(s: AppState): (r: Step)
    ensures !r.state.messageReceived
    ensures r.state == s.(messageReceived := false)
    ensures |r.effects| == 1 && r.effects[0].Show?
    ensures |r.effects[0].frame| == LedCount
    ensures forall i :: 0 <= i < LedCount ==> r.effects[0].frame[i] == Hsv(s.hue, 255, s.brightness)
  {
    Step(s.(messageReceived := false), [Show(seq(LedCount, _ => Hsv(s.hue, 255, s.brightness)))])
  }

  /** One iteration of `hueControlTask`: advance the hue, wrapping from 255 to 0. */
  function HueStep(h: Byte): (r: Byte)
    ensures h < 255 ==> r == h + 1
    ensures h == 255 ==> r == 0
  {
    (h + 1) % 256
  }

  /** The hue after `n` iterations of `hueControlTask`. */
  function HueAfter(h: Byte, n: nat): Byte
  {
    if n == 0 then h else HueStep(HueAfter(h, n - 1))
  }

  /** `n` steps advance the hue by `n` modulo 256. */
  lemma {:induction false} HueAfterSteps(h: Byte, n: nat)
    ensures HueAfter(h, n) == (h + n) % 256
  {
    if n > 0 {
      HueAfterSteps(h, n - 1);
      StepOfRemainder(h, n);
    }
  }

  /** Stepping the hue reached after `n - 1` steps gives the hue for `n` steps. */
  lemma StepOfRemainder(h: Byte, n: nat)
    requires n >= 1
    ensures HueStep((h + n - 1) % 256) == (h + n) % 256
  {
    var x := h + n - 1;
    var k := x % 256;
    var q := x / 256;
    assert x == 256 * q + k;
    if k < 255 {
      ModOfDecomposition(x + 1, q, k + 1);
    } else {
      ModOfDecomposition(x + 1, q + 1, 0);
    }
  }

  lemma ModOfDecomposition(x: int, q: int, r: int)
    requires 0 <= r < 256 && x == 256 * q + r
    ensures x % 256 == r
  {
  }

  /** The hue animation is periodic with period 256. */
  lemma HueCycle(h: Byte)
    ensures HueAfter(h, 256) == h
  {
    HueAfterSteps(h, 256);
  }

  // ---------------------------------------------------------------------------------------------
  // Console commands

  const UartLog := "UART_MENU"
  const MenuText := "\nMenu:\n1 - Option 1\n2 - Option 2\n3 - Option 3\nh - Show this menu"

  /** The C string a character buffer holds: everything before the first NUL. */
  function CString(s: string): (r: string)
    ensures r <= s
    ensures '\0' !in r
    ensures |r| < |s| ==> s[|r|] == '\0'
  {
    if s == [] || s[0] == '\0' then [] else [s[0]] + CString(s[1..])
  }

  /** `process_command(cmd)`. Option 1 pulses the relay and flashes the strip at brightness 100,
      then restores brightness 1; options 2 and 3 only log; "h" and every unrecognised command print
      the menu. */
  function ProcessCommand(s: AppState, cmd: string): (r: Step)
    ensures CString(cmd) == "1" ==>
      && r.state == s.(brightness := 1, messageReceived := false)
      && |r.effects| == 5
      && r.effects[0] == LogInfo(UartLog, "\nOption 1 selected")
      && r.effects[1] == DriveRelay(true) && r.effects[3] == DriveRelay(false)
      && r.effects[2].Show? && r.effects[4].Show?
      && |r.effects[2].frame| == LedCount && |r.effects[4].frame| == LedCount
      && (forall i :: 0 <= i < |r.effects[2].frame| ==> r.effects[2].frame[i] == Hsv(s.hue, 255, 100))
      && (forall i :: 0 <= i < |r.effects[4].frame| ==> r.effects[4].frame[i] == Hsv(s.hue, 255, 1))
    ensures CString(cmd) != "1" ==> r.state == s && |r.effects| == 1
    ensures CString(cmd) == "2" ==> r.effects == [LogInfo(UartLog, "\nOption 2 selected")]
    ensures CString(cmd) == "3" ==> r.effects == [LogInfo(UartLog, "\nOption 3 selected")]
    ensures CString(cmd) !in {"1", "2", "3"} ==> r.effects == [Print(MenuText)]
  {
    var c := CString(cmd);
    if c == "1" then
      var flash := ShowColor(s.(brightness := 100));
      var dim := ShowColor(flash.state.(brightness := 1));
      Step(dim.state,
           [LogInfo(UartLog, "\nOption 1 selected"), DriveRelay(true)] + flash.effects
           + [DriveRelay(false)] + dim.effects)
    else if c == "2" then Step(s, [LogInfo(UartLog, "\nOption 2 selected")])
    else if c == "3" then Step(s, [LogInfo(UartLog, "\nOption 3 selected")])
    else if c == "h" then Step(s, [Print(MenuText)])
    else Step(s, [Print(MenuText)])
  }

  /** Any command other than "1", "2", "3" and "h" behaves exactly like "h". */
  lemma UnknownCommandIsHelp(s: AppState, cmd: string)
    requires CString(cmd) !in {"1", "2", "3", "h"}
    ensures ProcessCommand(s, cmd) == ProcessCommand(s, "h")
  {
    assert CString("h") == "h";
  }

  // ---------------------------------------------------------------------------------------------
  // Console line reading

  /** `BUF_SIZE`, the size of the line buffer handed to `fgets`. */
  const LineBufferSize: nat := 256

  /** Characters of `pending` up to and including the first newline, at most `max` of them. */
  function TakeLine(pending: string, max: nat): (line: string)
    ensures line <= pending
    ensures |line| <= max
    ensures forall i :: 0 <= i < |line| - 1 ==> line[i] != '\n'
    ensures pending != [] && max > 0 ==> line != []
    ensures line == pending || |line| == max || (line != [] && line[|line| - 1] == '\n')
  {
    if pending == [] || max == 0 then []
    else if pending[0] == '\n' then ['\n']
    else [pending[0]] + TakeLine(pending[1..], max - 1)
  }

  /** A line typed at the console followed by Enter is read back with its newline. */
  lemma {:induction false} TakeLineKeepsNewline(c: string, rest: string, max: nat)
    requires '\n' !in c && |c| < max
    ensures TakeLine(c + "\n" + rest, max) == c + "\n"
  {
    if c != [] {
      assert (c + "\n" + rest)[1..] == c[1..] + "\n" + rest;
      TakeLineKeepsNewline(c[1..], rest, max - 1);
    }
  }

  /** One iteration of the console loop as written: `fgets` fills the line buffer (nothing happens
      when no input is pending) and the line, newline included, goes to `process_command`. */
  function ConsoleRound(s: AppState, pending: string): (r: Step)
    ensures pending == [] ==> r == Step(s, [])
  {
    if pending == [] then Step(s, [])
    else ProcessCommand(s, TakeLine(pending, LineBufferSize - 1))
  }

  /** As written, a command whose whole line, newline included, is pending when `fgets` is called
      never selects an option: the newline kept by `fgets` makes the line differ from "1", "2", "3"
      and "h", so the menu is printed and nothing else happens. */
  lemma BufferedLineOnlyShowsMenu(s: AppState, c: string, rest: string)
    requires '\n' !in c && '\0' !in c && |c| < LineBufferSize - 1
    ensures ConsoleRound(s, c + "\n" + rest) == Step(s, [Print(MenuText)])
  {
    TakeLineKeepsNewline(c, rest, LineBufferSize - 1);
    var line := c + "\n";
    assert line[|line| - 1] == '\n';
  }

  /** As written, when only part of a line is pending (the Enter has not arrived yet), `fgets`
      returns that part without a newline and it is dispatched as a command. */
  lemma PartialLineIsDispatched(s: AppState, c: string)
    requires c != [] && '\n' !in c && |c| < LineBufferSize - 1
    ensures ConsoleRound(s, c) == ProcessCommand(s, c)
  {
  }

  /** A line without its trailing newline. */
  function TrimNewline(line: string): (r: string)
    ensures line != [] && line[|line| - 1] == '\n' ==> r + "\n" == line
    ensures (line == [] || line[|line| - 1] != '\n') ==> r == line
  {
    if line != [] && line[|line| - 1] == '\n' then line[..|line| - 1] else line
  }

  /** The console loop with the newline removed before dispatch. */
  function ConsoleRoundTrimmed(s: AppState, pending: string): (r: Step)
    ensures pending == [] ==> r == Step(s, [])
  {
    if pending == [] then Step(s, [])
    else ProcessCommand(s, TrimNewline(TakeLine(pending, LineBufferSize - 1)))
  }

  /** With the newline removed, a command whose whole line is pending is dispatched as that
      command. */
  lemma TypedCommandIsDispatched(s: AppState, c: string, rest: string)
    requires '\n' !in c && |c| < LineBufferSize - 1
    ensures ConsoleRoundTrimmed(s, c + "\n" + rest) == ProcessCommand(s, c)
  {
    TakeLineKeepsNewline(c, rest, LineBufferSize - 1);
    assert TrimNewline(c + "\n") == c;
  }

  /** A command runs option 1 exactly when its C string is "1". */
  lemma RunsOptionOne(s: AppState, cmd: string)
    ensures ProcessCommand(s, cmd) == ProcessCommand(s, "1") <==> CString(cmd) == "1"
  {
    assert CString("1") == "1";
  }

  /** A buffer holds the C string "1" exactly when it starts with '1' followed by its end or a NUL. */
  lemma CStringIsOne(t: string)
    ensures CString(t) == "1" <==> |t| >= 1 && t[0] == '1' && (|t| == 1 || t[1] == '\0')
  {
    if |t| >= 1 && t[0] == '1' {
      assert CString(t) == [t[0]] + CString(t[1..]);
    }
  }

  /** As written, a console round runs option 1 exactly when the pending input is "1" alone, with
      no Enter yet, or "1" followed by a NUL; a pending "1\n" never does. */
  lemma ConsoleRoundRunsOptionOne(s: AppState, pending: string)
    ensures ConsoleRound(s, pending) == ProcessCommand(s, "1") <==>
      pending == "1" || (|pending| >= 2 && pending[0] == '1' && pending[1] == '\0')
  {
    assert CString("1") == "1";
    if pending != [] {
      var line := TakeLine(pending, LineBufferSize - 1);
      RunsOptionOne(s, line);
      CStringIsOne(line);
      if pending[0] == '1' {
        assert line == ['1'] + TakeLine(pending[1..], LineBufferSize - 2);
      }
    } else {
      assert |ConsoleRound(s, pending).effects| == 0;
    }
  }

  /** The trimmed line of a pending input holds the C string "1" exactly when the input starts with
      '1' followed by nothing, a newline or a NUL. */
  lemma {:induction false} TrimmedLineIsOne(pending: string)
    requires pending != []
    ensures CString(TrimNewline(TakeLine(pending, LineBufferSize - 1))) == "1" <==>
      pending[0] == '1' && (|pending| == 1 || pending[1] == '\n' || pending[1] == '\0')
  {
    var line := TakeLine(pending, LineBufferSize - 1);
    var t := TrimNewline(line);
    CStringIsOne(t);
    if pending[0] == '1' {
      var tail := TakeLine(pending[1..], LineBufferSize - 2);
      assert line == ['1'] + tail;
      if |pending| >= 2 {
        assert tail[0] == pending[1];
        if pending[1] == '\n' {
          assert tail == ['\n'];
          assert t == "1";
        } else {
          assert |tail| >= 2 || line[|line| - 1] != '\n';
          assert t[1] == pending[1];
        }
      } else {
        assert tail == [];
      }
    } else {
      assert line[0] == pending[0];
      if t != [] {
        assert t[0] == line[0];
      }
    }
  }

  /** With the newline removed, a console round runs option 1 exactly when the pending input
      starts with "1" followed by nothing, a newline or a NUL. */
  lemma TrimmedRoundRunsOptionOne(s: AppState, pending: string)
    ensures ConsoleRoundTrimmed(s, pending) == ProcessCommand(s, "1") <==>
      |pending| >= 1 && pending[0] == '1' && (|pending| == 1 || pending[1] == '\n' || pending[1] == '\0')
  {
    assert CString("1") == "1";
    if pending != [] {
      RunsOptionOne(s, TrimNewline(TakeLine(pending, LineBufferSize - 1)));
      TrimmedLineIsOne(pending);
    } else {
      assert |ConsoleRoundTrimmed(s, pending).effects| == 0;
    }
  }
}
