/** The virtual controller: the `input_event` triples the server writes to its
    uinput device, and the static table from button names to button codes.

    Button and axis codes are symbolic; their numeric values belong to the
    Linux input headers. Joystick coordinates stay as the text the macro
    compiler accepted; the mapping onto the 16-bit axis range is not part of
    this model. */
module Controller {
  import opened Common

  /** The event types the controller uses. */
  datatype EventType = EvSyn | EvKey | EvAbs

  /** The gamepad buttons `controller_init` registers. */
  datatype Button =
    | Btn0 | Btn1 | Btn2 | Btn3 | Btn4 | Btn5 | Btn6 | Btn7 | Btn8 | Btn9
    | BtnA | BtnB | BtnX | BtnY
    | BtnTL | BtnTR | BtnTL2 | BtnTR2
    | BtnStart | BtnSelect
    | BtnThumbL | BtnThumbR
    | BtnDpadUp | BtnDpadDown | BtnDpadLeft | BtnDpadRight

  /** The absolute axes `controller_init` sets up. */
  datatype Axis = AbsX | AbsY | AbsRX | AbsRY

  /** An event code; which kinds of code go with which event type is the
      `WellFormed` predicate below. */
  datatype Code = SynReport | Key(button: Button) | Abs(axis: Axis)

  /** An event value: an integer for key and sync events, the accepted
      coordinate text for axis events. */
  datatype Value = Level(n: int) | Coordinate(text: string)

  /** One `input_event` written by `send_event`. */
  datatype Event = Event(kind: EventType, code: Code, value: Value)

  /** The key bits set in `controller_init`. The `Button` type names exactly
      these, so every button a macro can press is one the device announced
      (`ButtonRegistered` spells out the case split). */
  const RegisteredButtons: set<Button> := {
    Btn0, Btn1, Btn2, Btn3, Btn4, Btn5, Btn6, Btn7, Btn8, Btn9,
    BtnA, BtnB, BtnX, BtnY,
    BtnTL, BtnTR, BtnTL2, BtnTR2,
    BtnStart, BtnSelect,
    BtnThumbL, BtnThumbR,
    BtnDpadUp, BtnDpadDown, BtnDpadLeft, BtnDpadRight
  }

  /** The axes set up in `controller_init`. */
  const RegisteredAxes: set<Axis> := {AbsX, AbsY, AbsRX, AbsRY}

  /** The event type matches the kind of code, and the code is one the
      device announced. */
  predicate WellFormed(e: Event) {
    match e.code
    case SynReport => e.kind == EvSyn && e.value == Level(0)
    case Key(b) => e.kind == EvKey && e.value.Level? && b in RegisteredButtons
    case Abs(a) => e.kind == EvAbs && e.value.Coordinate? && a in RegisteredAxes
  }

  /** Helper: each `Button` is in `RegisteredButtons`. */
  lemma ButtonRegistered(b: Button)
    ensures b in RegisteredButtons
  {
    match b
    case Btn0 => case Btn1 => case Btn2 => case Btn3 => case Btn4 =>
    case Btn5 => case Btn6 => case Btn7 => case Btn8 => case Btn9 =>
    case BtnA => case BtnB => case BtnX => case BtnY =>
    case BtnTL => case BtnTR => case BtnTL2 => case BtnTR2 =>
    case BtnStart => case BtnSelect =>
    case BtnThumbL => case BtnThumbR =>
    case BtnDpadUp => case BtnDpadDown => case BtnDpadLeft => case BtnDpadRight =>
  }

  lemma AxisRegistered(a: Axis)
    ensures a in RegisteredAxes
  {
    match a
    case AbsX => case AbsY => case AbsRX => case AbsRY =>
  }

  /** `press_button`: key `b` goes down. */
  function PressButton(b: Button): (e: Event)
    ensures WellFormed(e) && e.code == Key(b) && e.value == Level(1)
  {
    ButtonRegistered(b);
    Event(EvKey, Key(b), Level(1))
  }

  /** `release_button`: key `b` goes up. */
  function ReleaseButton(b: Button): (e: Event)
    ensures WellFormed(e) && e.code == Key(b) && e.value == Level(0)
  {
    ButtonRegistered(b);
    Event(EvKey, Key(b), Level(0))
  }

  /** `sync`: the report that makes the preceding events visible. */
  const SyncEvent: Event := Event(EvSyn, SynReport, Level(0))

  /** The axis pair a joystick side drives: first the horizontal axis, then
      the vertical one. */
  function SideAxes(side: Side): (axes: (Axis, Axis))
    ensures axes.0 != axes.1
  {
    match side
    case Left => (AbsX, AbsY)
    case Right => (AbsRX, AbsRY)
  }

  /** `set_joystick<side>`: the horizontal coordinate, then the vertical one. */
  function SetJoystick(side: Side, x: string, y: string): (es: seq<Event>)
    ensures |es| == 2
    ensures es[0] == Event(EvAbs, Abs(SideAxes(side).0), Coordinate(x))
    ensures es[1] == Event(EvAbs, Abs(SideAxes(side).1), Coordinate(y))
  {
    var (h, v) := SideAxes(side);
    [Event(EvAbs, Abs(h), Coordinate(x)), Event(EvAbs, Abs(v), Coordinate(y))]
  }

  /** `keycode_map`: the button names a macro may press and release. */
  const KeycodeMap: map<string, Button> := map[
    "0" := Btn0, "1" := Btn1, "2" := Btn2, "3" := Btn3, "4" := Btn4,
    "5" := Btn5, "6" := Btn6, "7" := Btn7, "8" := Btn8, "9" := Btn9,
    "A" := BtnA, "B" := BtnB, "X" := BtnX, "Y" := BtnY,
    "TL" := BtnTL, "TR" := BtnTR, "TL2" := BtnTL2, "TR2" := BtnTR2,
    "START" := BtnStart, "SELECT" := BtnSelect,
    "THUMBL" := BtnThumbL, "THUMBR" := BtnThumbR,
    "DPAD_UP" := BtnDpadUp, "DPAD_DOWN" := BtnDpadDown,
    "DPAD_LEFT" := BtnDpadLeft, "DPAD_RIGHT" := BtnDpadRight
  ]

  /** The names `keycode_map` knows. */
  const ButtonNames: set<string> := {
    "0", "1", "2", "3", "4", "5", "6", "7", "8", "9",
    "A", "B", "X", "Y", "TL", "TR", "TL2", "TR2", "START", "SELECT",
    "THUMBL", "THUMBR", "DPAD_UP", "DPAD_DOWN", "DPAD_LEFT", "DPAD_RIGHT"
  }

  /** The name `keycode_map` gives each button. */
  function NameOf(b: Button): string {
    match b
    case Btn0 => "0" case Btn1 => "1" case Btn2 => "2" case Btn3 => "3" case Btn4 => "4"
    case Btn5 => "5" case Btn6 => "6" case Btn7 => "7" case Btn8 => "8" case Btn9 => "9"
    case BtnA => "A" case BtnB => "B" case BtnX => "X" case BtnY => "Y"
    case BtnTL => "TL" case BtnTR => "TR" case BtnTL2 => "TL2" case BtnTR2 => "TR2"
    case BtnStart => "START" case BtnSelect => "SELECT"
    case BtnThumbL => "THUMBL" case BtnThumbR => "THUMBR"
    case BtnDpadUp => "DPAD_UP" case BtnDpadDown => "DPAD_DOWN"
    case BtnDpadLeft => "DPAD_LEFT" case BtnDpadRight => "DPAD_RIGHT"
  }

  /** Every registered button has a name in `keycode_map`, and that name
      maps back to it. */
  lemma NameOfInverse(b: Button)
    ensures NameOf(b) in KeycodeMap && KeycodeMap[NameOf(b)] == b
  {
    if b.Btn0? || b.Btn1? || b.Btn2? || b.Btn3? || b.Btn4? {
      NameOfLowDigit(b);
    } else if b.Btn5? || b.Btn6? || b.Btn7? || b.Btn8? || b.Btn9? {
      NameOfHighDigit(b);
    } else if b.BtnA? || b.BtnB? || b.BtnX? || b.BtnY? || b.BtnTL? || b.BtnTR? || b.BtnTL2? || b.BtnTR2? {
      NameOfFace(b);
    } else {
      NameOfOther(b);
    }
  }

  lemma NameOfLowDigit(b: Button)
    requires b.Btn0? || b.Btn1? || b.Btn2? || b.Btn3? || b.Btn4?
    ensures NameOf(b) in KeycodeMap && KeycodeMap[NameOf(b)] == b
  {
  }

  lemma NameOfHighDigit(b: Button)
    requires b.Btn5? || b.Btn6? || b.Btn7? || b.Btn8? || b.Btn9?
    ensures NameOf(b) in KeycodeMap && KeycodeMap[NameOf(b)] == b
  {
  }

  lemma NameOfFace(b: Button)
    requires b.BtnA? || b.BtnB? || b.BtnX? || b.BtnY? || b.BtnTL? || b.BtnTR? || b.BtnTL2? || b.BtnTR2?
    ensures NameOf(b) in KeycodeMap && KeycodeMap[NameOf(b)] == b
  {
  }

  lemma NameOfOther(b: Button)
    requires b.BtnStart? || b.BtnSelect? || b.BtnThumbL? || b.BtnThumbR?
          || b.BtnDpadUp? || b.BtnDpadDown? || b.BtnDpadLeft? || b.BtnDpadRight?
    ensures NameOf(b) in KeycodeMap && KeycodeMap[NameOf(b)] == b
  {
  }

  /** Every name in `keycode_map` is the name of the button it maps to, so
      distinct names map to distinct buttons. */
  lemma KeycodeMapInverse(n: string)
    requires n in KeycodeMap
    ensures NameOf(KeycodeMap[n]) == n
  {
  }

  /** `keycode_map` knows exactly the 26 listed names; any other name has no
      entry, which makes `.at` throw during playback. */
  lemma KeycodeMapKeys()
    ensures KeycodeMap.Keys == ButtonNames
  {
  }

  /** The codes in `keycode_map` are exactly the registered key bits. */
  lemma KeycodeMapValues()
    ensures KeycodeMap.Values == RegisteredButtons
  {
    forall b | b in RegisteredButtons
      ensures b in KeycodeMap.Values
    {
      NameOfInverse(b);
    }
  }

  /** `keycode_map` is one-to-one. */
  lemma KeycodeMapInjective(n: string, m: string)
    requires n in KeycodeMap && m in KeycodeMap && n != m
    ensures KeycodeMap[n] != KeycodeMap[m]
  {
    KeycodeMapInverse(n);
    KeycodeMapInverse(m);
  }

  /** Every event the emitters produce is one the device announced. */
  lemma EmittersWellFormed(b: Button, side: Side, x: string, y: string)
    ensures WellFormed(PressButton(b)) && WellFormed(ReleaseButton(b)) && WellFormed(SyncEvent)
    ensures forall e :: e in SetJoystick(side, x, y) ==> WellFormed(e)
  {
    var (h, v) := SideAxes(side);
    AxisRegistered(h);
    AxisRegistered(v);
  }
}
