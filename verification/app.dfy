/** The application's decision logic: the mouse report built from the
    current keypad key, whether the periodic USB callback sends it, the
    LED1/LED2 cycle driven by a wrapping counter, and the LED0 commands
    received as frames. */
module App {
  import opened Bytes
  import UsbComm

  // ---------------------------------------------------------------------
  // Mouse report

  /** The keypad keys the report distinguishes; `Other` stands for every
      other code the key scanner can return, including "no key". */
  datatype Key = Key1 | Key2 | Key3 | Key4 | Key5 | Key6 | Key7 | Key8 | Key9
               | KeyAsterisk | KeyHash | Other

  /** Cursor step per report. */
  const HidStep: int8 := 10

  /** Left and right mouse button bits as the report sets them. */
  const LeftButton: uint8 := 0x04
  const RightButton: uint8 := 0x01

  datatype Move = Move(buttons: uint8, x: int8, y: int8)

  /** The key switch: a direction per key, and a button for `*` and `#`. */
  function KeyMove(key: Key): Move
  {
    match key
    case Key1 => Move(0, -HidStep, -HidStep)
    case Key2 => Move(0, 0, -HidStep)
    case Key3 => Move(0, HidStep, -HidStep)
    case Key4 => Move(0, -HidStep, 0)
    case Key6 => Move(0, HidStep, 0)
    case Key7 => Move(0, -HidStep, HidStep)
    case Key8 => Move(0, 0, HidStep)
    case Key9 => Move(0, HidStep, HidStep)
    case KeyAsterisk => Move(LeftButton, HidStep, HidStep)
    case KeyHash => Move(RightButton, HidStep, HidStep)
    case _ => Move(0, 0, 0)
  }

  /** A cursor component is a step in either direction or none. */
  predicate IsStep(v: int) {
    v == -HidStep as int || v == 0 || v == HidStep as int
  }

  /** The 4-byte report: buttons, x, y (stored as two's-complement bytes)
      and a zero wheel byte. */
  function GetHidPosition(key: Key): (buf: seq<uint8>)
    ensures |buf| == 4 && buf[3] == 0
    ensures IsStep(ToSigned(buf[1])) && IsStep(ToSigned(buf[2]))
    ensures buf[1] in {0, 10, 246} && buf[2] in {0, 10, 246}
    ensures buf[0] in {0, RightButton, LeftButton}
    ensures buf[0] == LeftButton <==> key == KeyAsterisk
    ensures buf[0] == RightButton <==> key == KeyHash
    ensures buf == [0, 0, 0, 0] <==> key == Key5 || key == Other
  {
    var m := KeyMove(key);
    [m.buttons, ToUnsigned(m.x), ToUnsigned(m.y), 0]
  }

  /** The digit keys in keypad order, 1 to 9. */
  function DigitKey(d: int): Key
    requires 1 <= d <= 9
  {
    [Key1, Key2, Key3, Key4, Key5, Key6, Key7, Key8, Key9][d - 1]
  }

  /** The digit keys steer by keypad geometry: key `d` sits in column
      (d-1)%3 and row (d-1)/3 of a 3x3 grid, the cursor moves from the
      centre key 5 towards it, and no button is pressed. */
  lemma DigitKeysFollowKeypad(d: int)
    requires 1 <= d <= 9
    ensures var buf := GetHidPosition(DigitKey(d));
      && buf[0] == 0
      && ToSigned(buf[1]) == HidStep as int * ((d - 1) % 3 - 1)
      && ToSigned(buf[2]) == HidStep as int * ((d - 1) / 3 - 1)
  {
  }

  /** Both button keys also move the cursor down and right. */
  lemma ButtonKeysMoveDownRight(key: Key)
    requires key == KeyAsterisk || key == KeyHash
    ensures ToSigned(GetHidPosition(key)[1]) == HidStep as int
    ensures ToSigned(GetHidPosition(key)[2]) == HidStep as int
    ensures GetHidPosition(key)[0] != 0
  {
  }

  // ---------------------------------------------------------------------
  // Periodic USB callback

  datatype Sent = Report(buf: seq<uint8>) | Nothing

  /** Builds the report for `key` and sends it only when it moves the
      cursor. */
  function UsbSoftTimerCallback(key: Key): (r: Sent)
    ensures r.Report? <==> key != Key5 && key != Other
    ensures r != Report([0, 0, 0, 0])
    ensures r.Report? ==> r.buf == GetHidPosition(key)
  {
    var buf := GetHidPosition(key);
    if buf[1] != 0 || buf[2] != 0 then Report(buf) else Nothing
  }

  /** A button press is never lost to the send decision, because both
      button keys also move the cursor; and a report that goes out always
      carries a nonzero x or y. */
  lemma EveryButtonPressIsSent(key: Key)
    ensures GetHidPosition(key)[0] != 0 ==> UsbSoftTimerCallback(key) == Report(GetHidPosition(key))
    ensures UsbSoftTimerCallback(key).Report? ==>
      ToSigned(UsbSoftTimerCallback(key).buf[1]) != 0 || ToSigned(UsbSoftTimerCallback(key).buf[2]) != 0
  {
  }

  // ---------------------------------------------------------------------
  // LED cycle

  datatype Leds = Leds(led1: bool, led2: bool)

  /** The LED pattern after a call with counter value `counter`. */
  function LedsFor(counter: uint8): (l: Leds)
    ensures !(l.led1 && l.led2)
    ensures l.led1 <==> counter % 3 == 1
    ensures l.led2 <==> counter % 3 == 2
  {
    match counter % 3
    case 0 => Leds(false, false)
    case 1 => Leds(true, false)
    case 2 => Leds(false, true)
  }

  /** One call of the slow periodic callback: set LED1/LED2 from the
      counter, then increment the `uint8_t` counter. */
  function SoftTimerCallback(counter: uint8): (r: (Leds, uint8))
    ensures !(r.0.led1 && r.0.led2)
    ensures r.0 == LedsFor(counter)
    ensures r.1 == Inc8(counter)
  {
    (LedsFor(counter), Inc8(counter))
  }

  /** The cycle as a sequence: both off, then LED1, then LED2, then both
      off again. */
  function NextLeds(l: Leds): Leds
  {
    if !l.led1 && !l.led2 then Leds(true, false)
    else if l.led1 then Leds(false, true)
    else Leds(false, false)
  }

  /** Away from the wrap, each call advances the cycle by one state. */
  lemma CallAdvancesCycle(counter: uint8)
    requires counter < 255
    ensures LedsFor(SoftTimerCallback(counter).1) == NextLeds(LedsFor(counter))
  {
  }

  /** 256 is not a multiple of 3: across the 255 to 0 wrap the all-off
      state is shown twice in a row. */
  lemma WrapRepeatsAllOff()
    ensures SoftTimerCallback(255).1 == 0
    ensures LedsFor(255) == LedsFor(0) == Leds(false, false)
    ensures NextLeds(LedsFor(255)) != LedsFor(0)
  {
  }

  /** The counter after `k` calls starting from `counter`. */
  function CounterAfter(counter: uint8, k: nat): uint8
    decreases k
  {
    if k == 0 then counter else CounterAfter(SoftTimerCallback(counter).1, k - 1)
  }

  /** After `k` calls the counter is the start plus `k` modulo 256, not
      plus `k`: the pattern shown follows (counter + k) % 256 % 3. */
  lemma {:induction false} CounterAfterWraps(counter: uint8, k: nat)
    ensures CounterAfter(counter, k) == (counter + k) % 256
    decreases k
  {
    if k > 0 {
      CounterAfterWraps(Inc8(counter), k - 1);
      assert (Inc8(counter) + (k - 1)) % 256 == (counter + k) % 256;
    }
  }

  // ---------------------------------------------------------------------
  // LED0 commands

  /** ":LED0 ON" and ":LED0 OFF" in ASCII. */
  const LedOnCommand: seq<uint8> := [58, 76, 69, 68, 48, 32, 79, 78]
  const LedOffCommand: seq<uint8> := [58, 76, 69, 68, 48, 32, 79, 70, 70]

  /** The string `strcmp` sees in a buffer: the bytes before its first
      zero byte. */
  function CString(buf: seq<uint8>): (s: seq<uint8>)
    ensures s <= buf && 0 !in s
    ensures |s| < |buf| ==> buf[|s|] == 0
    decreases |buf|
  {
    if buf == [] || buf[0] == 0 then [] else [buf[0]] + CString(buf[1..])
  }

  /** Appending a zero byte (and anything after it) does not change the
      string `strcmp` sees. */
  lemma {:induction false} CStringOfTerminated(s: seq<uint8>, tail: seq<uint8>)
    ensures CString(s + [0] + tail) == CString(s)
    decreases |s|
  {
    if s != [] && s[0] != 0 {
      assert (s + [0] + tail)[1..] == s[1..] + [0] + tail;
      CStringOfTerminated(s[1..], tail);
    }
  }

  /** LED0 after a received frame: on for ":LED0 ON", off for ":LED0 OFF",
      unchanged for anything else. */
  function ApplyLedCommand(frame: seq<uint8>, led0: bool): (on: bool)
    ensures CString(frame) == LedOnCommand ==> on
    ensures CString(frame) == LedOffCommand ==> !on
    ensures CString(frame) != LedOnCommand && CString(frame) != LedOffCommand ==> on == led0
  {
    var s := CString(frame);
    if s == LedOnCommand then true
    else if s == LedOffCommand then false
    else led0
  }

  /** Each command does what it names, and no frame both sets and clears
      LED0. */
  lemma LedCommandsExact(led0: bool)
    ensures ApplyLedCommand(LedOnCommand, led0)
    ensures !ApplyLedCommand(LedOffCommand, led0)
  {
    CStringPrefix(LedOnCommand);
    CStringPrefix(LedOffCommand);
  }

  /** A frame with an extra byte before its first zero byte is not a
      command, while bytes after an embedded zero byte are not compared. */
  lemma LedCommandComparesUpToZero(led0: bool, b: uint8, tail: seq<uint8>)
    requires b != 0
    ensures ApplyLedCommand(LedOnCommand + [b], led0) == led0
    ensures ApplyLedCommand(LedOnCommand + [0] + tail, led0)
  {
    CStringPrefix(LedOnCommand);
    CStringOfTerminated(LedOnCommand, tail);
    var longer := LedOnCommand + [b];
    CStringPrefix(longer);
    assert |longer| != |LedOnCommand| && longer[7] != LedOffCommand[7];
  }

  /** Without a zero byte the whole buffer is the string. */
  lemma {:induction false} CStringPrefix(s: seq<uint8>)
    requires 0 !in s
    ensures CString(s) == s
    decreases |s|
  {
    if s != [] {
      assert s[0] != 0;
      CStringPrefix(s[1..]);
    }
  }

  /** The frame-handling part of one main-loop pass: poll for a frame into
      the 255-byte command buffer and, if one arrived, apply it to LED0. */
  method MainLoopFrame(st: UsbComm.CommState, buf: seq<uint8>, led0: bool)
    returns (st': UsbComm.CommState, buf': seq<uint8>, led0': bool)
    requires UsbComm.Valid(st) && |buf| == 255
    requires st.gotFrame != 0 ==> UsbComm.Span(st.rx.items) <= 255
    ensures st' == UsbComm.Poll(st).st
    ensures UsbComm.Poll(st).status.FrameOk? ==> led0' == ApplyLedCommand(UsbComm.Poll(st).payload, led0)
    ensures !UsbComm.Poll(st).status.FrameOk? ==> led0' == led0
  {
    var status, len;
    status, len, buf', st' := UsbComm.GetFrame(st, buf);
    led0' := led0;
    if status == 0 {
      var p := UsbComm.Poll(st).payload;
      assert buf' == p + [0] + buf'[len + 1..] by {
        assert buf' == buf'[..len] + [buf'[len]] + buf'[len + 1..];
      }
      CStringOfTerminated(p, buf'[len + 1..]);
      led0' := ApplyLedCommand(buf', led0);
    }
  }
}
