/** The client's sequential logic: the `keymap` from key codes to characters,
    `read_str`, the line editor that turns keyboard events into a macro code,
    the `read_conf` key/value reader, and the client side of `handshake`.

    Device input, the configuration file's contents and the outcome of each
    `send`/`recv` are parameters. Key codes are symbolic; their numeric
    values belong to the Linux input headers. */
module Client {
  import opened Wrappers
  import opened Common
  import opened Stream

  // ---------------------------------------------------------------------------
  // Key codes and `keymap`.

  /** The key codes `read_str` tells apart; `OtherKey` stands for any code
      not listed here. */
  datatype KeyCode =
    | KeyA | KeyB | KeyC | KeyD | KeyE | KeyF | KeyG | KeyH | KeyI | KeyJ | KeyK | KeyL | KeyM
    | KeyN | KeyO | KeyP | KeyQ | KeyR | KeyS | KeyT | KeyU | KeyV | KeyW | KeyX | KeyY | KeyZ
    | Key1 | Key2 | Key3 | Key4 | Key5 | Key6 | Key7 | Key8 | Key9 | Key0
    | KeySpace | KeyMinus | KeyEqual | KeyDot | KeyComma | KeySlash
    | KeySemicolon | KeyApostrophe | KeyLeftBrace | KeyRightBrace
    | KeyEnter | KeyKpEnter | KeyBackspace
    | OtherKey(code: int)

  /** `keymap`: the character a key types, if it types one. */
  function KeymapChar(k: KeyCode): Option<char> {
    match k
    case KeyA => Some('a') case KeyB => Some('b') case KeyC => Some('c') case KeyD => Some('d')
    case KeyE => Some('e') case KeyF => Some('f') case KeyG => Some('g') case KeyH => Some('h')
    case KeyI => Some('i') case KeyJ => Some('j') case KeyK => Some('k') case KeyL => Some('l')
    case KeyM => Some('m') case KeyN => Some('n') case KeyO => Some('o') case KeyP => Some('p')
    case KeyQ => Some('q') case KeyR => Some('r') case KeyS => Some('s') case KeyT => Some('t')
    case KeyU => Some('u') case KeyV => Some('v') case KeyW => Some('w') case KeyX => Some('x')
    case KeyY => Some('y') case KeyZ => Some('z')
    case Key1 => Some('1') case Key2 => Some('2') case Key3 => Some('3') case Key4 => Some('4')
    case Key5 => Some('5') case Key6 => Some('6') case Key7 => Some('7') case Key8 => Some('8')
    case Key9 => Some('9') case Key0 => Some('0')
    case KeySpace => Some(' ') case KeyMinus => Some('-') case KeyEqual => Some('=')
    case KeyDot => Some('.') case KeyComma => Some(',') case KeySlash => Some('/')
    case KeySemicolon => Some(';') case KeyApostrophe => Some('\'')
    case KeyLeftBrace => Some('[') case KeyRightBrace => Some(']')
    case KeyEnter => None case KeyKpEnter => None case KeyBackspace => None
    case OtherKey(_) => None
  }

  /** The key that types `c`, if any: the inverse of `keymap`, looked up in
      four small tables by character class. */
  function KeyFor(c: char): Option<KeyCode> {
    if 'a' <= c <= 'm' then FirstLetterKey(c)
    else if 'n' <= c <= 'z' then LastLetterKey(c)
    else if '0' <= c <= '9' then DigitKey(c)
    else MarkKey(c)
  }

  function FirstLetterKey(c: char): Option<KeyCode> {
    match c
    case 'a' => Some(KeyA) case 'b' => Some(KeyB) case 'c' => Some(KeyC) case 'd' => Some(KeyD)
    case 'e' => Some(KeyE) case 'f' => Some(KeyF) case 'g' => Some(KeyG) case 'h' => Some(KeyH)
    case 'i' => Some(KeyI) case 'j' => Some(KeyJ) case 'k' => Some(KeyK) case 'l' => Some(KeyL)
    case 'm' => Some(KeyM)
    case _ => None
  }

  function LastLetterKey(c: char): Option<KeyCode> {
    match c
    case 'n' => Some(KeyN) case 'o' => Some(KeyO) case 'p' => Some(KeyP) case 'q' => Some(KeyQ)
    case 'r' => Some(KeyR) case 's' => Some(KeyS) case 't' => Some(KeyT) case 'u' => Some(KeyU)
    case 'v' => Some(KeyV) case 'w' => Some(KeyW) case 'x' => Some(KeyX) case 'y' => Some(KeyY)
    case 'z' => Some(KeyZ)
    case _ => None
  }

  function DigitKey(c: char): Option<KeyCode> {
    match c
    case '1' => Some(Key1) case '2' => Some(Key2) case '3' => Some(Key3) case '4' => Some(Key4)
    case '5' => Some(Key5) case '6' => Some(Key6) case '7' => Some(Key7) case '8' => Some(Key8)
    case '9' => Some(Key9) case '0' => Some(Key0)
    case _ => None
  }

  function MarkKey(c: char): Option<KeyCode> {
    match c
    case ' ' => Some(KeySpace) case '-' => Some(KeyMinus) case '=' => Some(KeyEqual)
    case '.' => Some(KeyDot) case ',' => Some(KeyComma) case '/' => Some(KeySlash)
    case ';' => Some(KeySemicolon) case '\'' => Some(KeyApostrophe)
    case '[' => Some(KeyLeftBrace) case ']' => Some(KeyRightBrace)
    case _ => None
  }

  /** The four classes of keys `keymap` maps. */
  predicate FirstLetterCode(k: KeyCode) {
    || k.KeyA? || k.KeyB? || k.KeyC? || k.KeyD? || k.KeyE? || k.KeyF? || k.KeyG?
    || k.KeyH? || k.KeyI? || k.KeyJ? || k.KeyK? || k.KeyL? || k.KeyM?
  }

  predicate LastLetterCode(k: KeyCode) {
    || k.KeyN? || k.KeyO? || k.KeyP? || k.KeyQ? || k.KeyR? || k.KeyS? || k.KeyT?
    || k.KeyU? || k.KeyV? || k.KeyW? || k.KeyX? || k.KeyY? || k.KeyZ?
  }

  predicate DigitCode(k: KeyCode) {
    || k.Key1? || k.Key2? || k.Key3? || k.Key4? || k.Key5?
    || k.Key6? || k.Key7? || k.Key8? || k.Key9? || k.Key0?
  }

  predicate MarkCode(k: KeyCode) {
    || k.KeySpace? || k.KeyMinus? || k.KeyEqual? || k.KeyDot? || k.KeyComma?
    || k.KeySlash? || k.KeySemicolon? || k.KeyApostrophe? || k.KeyLeftBrace? || k.KeyRightBrace?
  }

  /** `keymap` is one-to-one: each key it maps is the only key typing its
      character. */
  lemma KeymapInverse(k: KeyCode)
    requires KeymapChar(k).Some?
    ensures KeyFor(KeymapChar(k).value) == Some(k)
  {
    if FirstLetterCode(k) {
      FirstLettersInverse(k);
    } else if LastLetterCode(k) {
      LastLettersInverse(k);
    } else if DigitCode(k) {
      DigitsInverse(k);
    } else {
      MarksInverse(k);
    }
  }

  lemma FirstLettersInverse(k: KeyCode)
    requires FirstLetterCode(k)
    ensures KeyFor(KeymapChar(k).value) == Some(k)
  {
  }

  lemma LastLettersInverse(k: KeyCode)
    requires LastLetterCode(k)
    ensures KeyFor(KeymapChar(k).value) == Some(k)
  {
  }

  lemma DigitsInverse(k: KeyCode)
    requires DigitCode(k)
    ensures KeyFor(KeymapChar(k).value) == Some(k)
  {
  }

  lemma MarksInverse(k: KeyCode)
    requires KeymapChar(k).Some? && !FirstLetterCode(k) && !LastLetterCode(k) && !DigitCode(k)
    ensures MarkCode(k)
    ensures KeyFor(KeymapChar(k).value) == Some(k)
  {
  }

  /** Every character some key types is typed by the key `KeyFor` gives. */
  lemma KeymapOnto(c: char)
    requires KeyFor(c).Some?
    ensures KeymapChar(KeyFor(c).value) == Some(c)
  {
    if 'a' <= c <= 'm' {
      FirstLettersOnto(c);
    } else if 'n' <= c <= 'z' {
      LastLettersOnto(c);
    } else if '0' <= c <= '9' {
      DigitsOnto(c);
    } else {
      MarksOnto(c);
    }
  }

  lemma FirstLettersOnto(c: char)
    requires FirstLetterKey(c).Some?
    ensures KeymapChar(FirstLetterKey(c).value) == Some(c)
  {
  }

  lemma LastLettersOnto(c: char)
    requires LastLetterKey(c).Some?
    ensures KeymapChar(LastLetterKey(c).value) == Some(c)
  {
  }

  lemma DigitsOnto(c: char)
    requires DigitKey(c).Some?
    ensures KeymapChar(DigitKey(c).value) == Some(c)
  {
  }

  lemma MarksOnto(c: char)
    requires MarkKey(c).Some?
    ensures KeymapChar(MarkKey(c).value) == Some(c)
  {
  }

  /** The characters `keymap` produces. */
  predicate KeymapValue(c: char) {
    KeyFor(c).Some?
  }

  /** Every character `keymap` produces is a `KeymapValue`, and the keys
      `read_str` treats specially type nothing. */
  lemma KeymapChars(k: KeyCode)
    ensures KeymapChar(k).Some? ==> KeymapValue(KeymapChar(k).value)
    ensures k == KeyEnter || k == KeyKpEnter || k == KeyBackspace ==> KeymapChar(k).None?
  {
    if KeymapChar(k).Some? {
      KeymapInverse(k);
    }
  }

  // ---------------------------------------------------------------------------
  // `read_str`.

  /** An `input_event`: whether its type is `EV_KEY`, its code and value. */
  datatype InputEvent = InputEvent(keyEvent: bool, code: KeyCode, value: int)

  /** One `read` from the device: short (ignored) or a whole event. */
  datatype DeviceRead = ShortRead | Full(ev: InputEvent)

  /** A key press: a whole `EV_KEY` event with value 1. */
  predicate IsPress(r: DeviceRead) {
    r.Full? && r.ev.keyEvent && r.ev.value == 1
  }

  /** A press of either Enter key, which ends the string. */
  predicate IsEnter(r: DeviceRead) {
    IsPress(r) && (r.ev.code == KeyEnter || r.ev.code == KeyKpEnter)
  }

  predicate IsBackspace(r: DeviceRead) {
    IsPress(r) && r.ev.code == KeyBackspace
  }

  /** The buffer after one read that is not an Enter press: anything but a
      press leaves it alone, backspace removes the last character, a mapped
      key appends its character. */
  function Edit(buffer: string, r: DeviceRead): (b: string)
    requires !IsEnter(r)
    ensures !IsPress(r) ==> b == buffer
    ensures IsBackspace(r) ==> b == if buffer == [] then buffer else buffer[..|buffer| - 1]
    ensures IsPress(r) && !IsBackspace(r) ==>
      b == buffer + (if KeymapChar(r.ev.code).Some? then [KeymapChar(r.ev.code).value] else [])
  {
    if !IsPress(r) then buffer
    else if r.ev.code == KeyBackspace && buffer != [] then buffer[..|buffer| - 1]
    else match KeymapChar(r.ev.code)
      case Some(c) => buffer + [c]
      case None => buffer
  }

  /** The `read_str` loop from buffer `buffer` over the reads the device
      delivers while the client runs: the string returned and the number of
      reads consumed. */
  function ReadFrom(buffer: string, input: seq<DeviceRead>): (r: (string, nat))
    ensures r.1 <= |input|
    decreases |input|
  {
    if input == [] then (buffer, 0)
    else if IsEnter(input[0]) then (buffer, 1)
    else
      var (s, n) := ReadFrom(Edit(buffer, input[0]), input[1..]);
      (s, n + 1)
  }

  /** `read_str`: the loop starts from an empty buffer. */
  function ReadStr(input: seq<DeviceRead>): (string, nat) {
    ReadFrom("", input)
  }

  predicate NoEnter(input: seq<DeviceRead>) {
    forall i :: 0 <= i < |input| ==> !IsEnter(input[i])
  }

  /** Reading a concatenation without Enter in the first part is reading the
      first part, then the second from where the first left the buffer. */
  lemma {:induction false} ReadFromAppend(buffer: string, xs: seq<DeviceRead>, ys: seq<DeviceRead>)
    requires NoEnter(xs)
    ensures ReadFrom(buffer, xs).1 == |xs|
    ensures ReadFrom(buffer, xs + ys) == (ReadFrom(ReadFrom(buffer, xs).0, ys).0, |xs| + ReadFrom(ReadFrom(buffer, xs).0, ys).1)
    decreases |xs|
  {
    if xs != [] {
      assert !IsEnter(xs[0]);
      assert (xs + ys)[0] == xs[0] && (xs + ys)[1..] == xs[1..] + ys;
      ReadFromAppend(Edit(buffer, xs[0]), xs[1..], ys);
    } else {
      assert xs + ys == ys;
    }
  }

  /** The first Enter press ends the string: it is not appended, and no
      later read is consumed or has any effect. */
  lemma ReadStopsAtEnter(buffer: string, input: seq<DeviceRead>, i: int)
    requires 0 <= i < |input| && IsEnter(input[i]) && NoEnter(input[..i])
    ensures ReadFrom(buffer, input) == (ReadFrom(buffer, input[..i]).0, i + 1)
  {
    assert input == input[..i] + input[i..];
    ReadFromAppend(buffer, input[..i], input[i..]);
  }

  /** A backspace press removes the last character typed so far, and does
      nothing on an empty buffer. */
  lemma BackspaceErases(buffer: string, input: seq<DeviceRead>, r: DeviceRead)
    requires NoEnter(input) && IsBackspace(r)
    ensures var before := ReadFrom(buffer, input).0;
      ReadFrom(buffer, input + [r]).0 == if before == [] then before else before[..|before| - 1]
  {
    ReadFromAppend(buffer, input, [r]);
  }

  /** The presses among some reads. */
  function Presses(input: seq<DeviceRead>): (ps: seq<DeviceRead>)
    ensures forall i :: 0 <= i < |ps| ==> IsPress(ps[i])
  {
    if input == [] then []
    else (if IsPress(input[0]) then [input[0]] else []) + Presses(input[1..])
  }

  /** Only key presses matter: releases, repeats, other event types and
      short reads do not change the string. */
  lemma {:induction false} PressesOnly(buffer: string, input: seq<DeviceRead>)
    ensures ReadFrom(buffer, input).0 == ReadFrom(buffer, Presses(input)).0
    decreases |input|
  {
    if input != [] {
      if IsPress(input[0]) {
        assert Presses(input)[0] == input[0] && Presses(input)[1..] == Presses(input[1..]);
        if !IsEnter(input[0]) {
          PressesOnly(Edit(buffer, input[0]), input[1..]);
        }
      } else {
        assert Presses(input) == Presses(input[1..]);
        PressesOnly(buffer, input[1..]);
      }
    }
  }

  /** The character a read types, if it is a press of a mapped key. */
  function Keystroke(r: DeviceRead): string {
    if IsPress(r) && KeymapChar(r.ev.code).Some? then [KeymapChar(r.ev.code).value] else []
  }

  /** The characters the presses among some reads type, in order. */
  function Typed(input: seq<DeviceRead>): string {
    if input == [] then [] else Keystroke(input[0]) + Typed(input[1..])
  }

  /** Apart from Enter and backspace, a read appends what it types. */
  lemma EditTypes(buffer: string, r: DeviceRead)
    requires !IsEnter(r) && !IsBackspace(r)
    ensures Edit(buffer, r) == buffer + Keystroke(r)
  {
  }

  /** Without Enter or backspace, `read_str` appends exactly the characters
      the pressed keys type, in order. */
  lemma {:induction false} ReadTyped(buffer: string, input: seq<DeviceRead>)
    requires NoEnter(input)
    requires forall i :: 0 <= i < |input| ==> !IsBackspace(input[i])
    ensures ReadFrom(buffer, input).0 == buffer + Typed(input)
    decreases |input|
  {
    hide Edit, Keystroke, KeymapChar, IsBackspace, IsEnter, IsPress;
    if input != [] {
      assert !IsEnter(input[0]) && !IsBackspace(input[0]);
      assert ReadFrom(buffer, input).0 == ReadFrom(Edit(buffer, input[0]), input[1..]).0;
      EditTypes(buffer, input[0]);
      ReadTyped(buffer + Keystroke(input[0]), input[1..]);
      assert Typed(input) == Keystroke(input[0]) + Typed(input[1..]);
      assert buffer + Keystroke(input[0]) + Typed(input[1..]) == buffer + Typed(input);
    }
  }

  /** Every character of `s` is one `keymap` produces. */
  predicate Typeable(s: string) {
    forall i :: 0 <= i < |s| ==> KeymapValue(s[i])
  }

  /** Every character of the returned string is one `keymap` produces. */
  lemma {:induction false} ReadChars(buffer: string, input: seq<DeviceRead>)
    requires Typeable(buffer)
    ensures Typeable(ReadFrom(buffer, input).0)
    decreases |input|
  {
    hide KeymapChar, KeymapValue;
    if input != [] && !IsEnter(input[0]) {
      var next := Edit(buffer, input[0]);
      if IsPress(input[0]) {
        KeymapChars(input[0].ev.code);
      }
      forall i | 0 <= i < |next|
        ensures KeymapValue(next[i])
      {
        if i < |buffer| {
          assert next[i] == buffer[i];
        }
      }
      ReadChars(next, input[1..]);
    }
  }

  // ---------------------------------------------------------------------------
  // `read_conf`.

  /** The connection settings `read_conf` may change. */
  datatype Config = Config(address: string, port: int, inputPath: string)

  /** `port` is a `uint16_t`. */
  predicate ValidPort(c: Config) {
    0 <= c.port < 0x1_0000
  }

  /** The compiled-in defaults. */
  const DefaultConfig: Config := Config("127.0.0.1", 6969, "/dev/input/event16")

  /** `static_cast<uint16_t>` of an `int`: the value modulo 2^16. */
  function Port16(v: int): (p: int)
    ensures 0 <= p < 0x1_0000
    ensures (v - p) % 0x1_0000 == 0
    ensures 0 <= v < 0x1_0000 ==> p == v
  {
    v % 0x1_0000
  }

  /** One `name value` pair: `address` and `input_path` are taken verbatim,
      `port` is `stoi` of the value cast to 16 bits and is left alone when
      `stoi` throws, and other names are ignored. */
  function ApplyPair(c: Config, name: string, value: string): (r: Config)
    ensures ValidPort(c) ==> ValidPort(r)
    ensures name != "address" && name != "port" && name != "input_path" ==> r == c
    ensures name == "address" ==> r == c.(address := value)
    ensures name == "input_path" ==> r == c.(inputPath := value)
    ensures name == "port" ==> r.address == c.address && r.inputPath == c.inputPath
  {
    if name == "address" then c.(address := value)
    else if name == "port" then
      match IntPrefix(value)
      case Some(v) => c.(port := Port16(v))
      case None => c
    else if name == "input_path" then c.(inputPath := value)
    else c
  }

  /** The words of the file taken two at a time, an odd last word dropped. */
  function ApplyPairs(c: Config, words: seq<string>): Config
    decreases |words|
  {
    if |words| < 2 then c else ApplyPairs(ApplyPair(c, words[0], words[1]), words[2..])
  }

  /** `read_conf`: `file` is the text of `client.conf`, `None` when it cannot
      be opened. */
  method ReadConf(file: Option<string>) returns (c: Config)
    ensures file.None? ==> c == DefaultConfig
    ensures file.Some? ==> c == ApplyPairs(DefaultConfig, Tokens(file.value))
    ensures ValidPort(c)
  {
    c := DefaultConfig;
    if file.None? {
      return;
    }
    var s := Open(file.value);
    while true
      invariant s.Valid() && s.text == file.value
      invariant ValidPort(c)
      invariant ApplyPairs(c, Pending(s)) == ApplyPairs(DefaultConfig, Tokens(file.value))
      decreases |Pending(s)|
    {
      var name := ExtractWord(s);
      ExtractWordReadsToken(s);
      var value := ExtractWord(name.rest);
      ExtractWordReadsToken(name.rest);
      if value.rest.fail {
        break;
      }
      c := ApplyPair(c, name.value, value.value);
      s := value.rest;
    }
  }

  /** Pair `j` of the words: its name and its value. */
  function PairName(words: seq<string>, j: nat): string
    requires 2 * j + 1 < |words|
  {
    words[2 * j]
  }

  function PairValue(words: seq<string>, j: nat): string
    requires 2 * j + 1 < |words|
  {
    words[2 * j + 1]
  }

  /** The setting a verbatim name controls. */
  function Verbatim(c: Config, name: string): string {
    if name == "address" then c.address else c.inputPath
  }

  /** For `address` and `input_path`, the last pair naming the setting wins. */
  lemma {:induction false} LastVerbatimWins(c: Config, words: seq<string>, name: string, j: nat)
    requires name == "address" || name == "input_path"
    requires 2 * j + 1 < |words| && PairName(words, j) == name
    requires forall k: nat :: j < k && 2 * k + 1 < |words| ==> PairName(words, k) != name
    ensures Verbatim(ApplyPairs(c, words), name) == PairValue(words, j)
    decreases |words|
  {
    var c' := ApplyPair(c, words[0], words[1]);
    forall k: nat | j <= k + 1 && 2 * k + 1 < |words[2..]| && (j == 0 || j - 1 < k)
      ensures PairName(words[2..], k) != name
    {
      assert PairName(words[2..], k) == PairName(words, k + 1);
    }
    if j == 0 {
      NoVerbatimKeeps(c', words[2..], name);
    } else {
      assert PairName(words[2..], j - 1) == PairName(words, j);
      assert PairValue(words[2..], j - 1) == PairValue(words, j);
      LastVerbatimWins(c', words[2..], name, j - 1);
    }
  }

  /** A verbatim setting no pair names keeps its value. */
  lemma {:induction false} NoVerbatimKeeps(c: Config, words: seq<string>, name: string)
    requires name == "address" || name == "input_path"
    requires forall k: nat :: 2 * k + 1 < |words| ==> PairName(words, k) != name
    ensures Verbatim(ApplyPairs(c, words), name) == Verbatim(c, name)
    decreases |words|
  {
    if |words| >= 2 {
      assert PairName(words, 0) != name;
      forall k: nat | 2 * k + 1 < |words[2..]|
        ensures PairName(words[2..], k) != name
      {
        assert PairName(words[2..], k) == PairName(words, k + 1);
      }
      NoVerbatimKeeps(ApplyPair(c, words[0], words[1]), words[2..], name);
    }
  }

  /** A `port` pair whose value `stoi` accepts. */
  predicate PortPair(words: seq<string>, k: nat) {
    2 * k + 1 < |words| && PairName(words, k) == "port" && IntPrefix(PairValue(words, k)).Some?
  }

  /** The port is the last accepted `port` value, truncated to 16 bits. */
  lemma {:induction false} LastPortWins(c: Config, words: seq<string>, j: nat)
    requires PortPair(words, j)
    requires forall k: nat :: j < k ==> !PortPair(words, k)
    ensures ApplyPairs(c, words).port == Port16(IntPrefix(PairValue(words, j)).value)
    decreases |words|
  {
    var c' := ApplyPair(c, words[0], words[1]);
    forall k: nat | j <= k + 1 && (j == 0 || j - 1 < k)
      ensures !PortPair(words[2..], k)
    {
      assert !PortPair(words, k + 1);
      if 2 * k + 1 < |words[2..]| {
        assert PairName(words[2..], k) == PairName(words, k + 1);
        assert PairValue(words[2..], k) == PairValue(words, k + 1);
      }
    }
    if j == 0 {
      NoPortKeeps(c', words[2..]);
    } else {
      assert PairName(words[2..], j - 1) == PairName(words, j);
      assert PairValue(words[2..], j - 1) == PairValue(words, j);
      LastPortWins(c', words[2..], j - 1);
    }
  }

  /** Without an accepted `port` value the port is unchanged. */
  lemma {:induction false} NoPortKeeps(c: Config, words: seq<string>)
    requires forall k: nat :: !PortPair(words, k)
    ensures ApplyPairs(c, words).port == c.port
    decreases |words|
  {
    if |words| >= 2 {
      assert !PortPair(words, 0);
      forall k: nat
        ensures !PortPair(words[2..], k)
      {
        assert !PortPair(words, k + 1);
        if 2 * k + 1 < |words[2..]| {
          assert PairName(words[2..], k) == PairName(words, k + 1);
          assert PairValue(words[2..], k) == PairValue(words, k + 1);
        }
      }
      NoPortKeeps(ApplyPair(c, words[0], words[1]), words[2..]);
    }
  }

  // ---------------------------------------------------------------------------
  // Handshake.

  /** The client's side of the handshake: the magic it sends, the reply it
      computes (if it got a challenge), and whether it reports success. */
  datatype Response = Response(hello: bv32, reply: Option<bv64>, ok: bool)

  /** `handshake` on the client. `helloSent` and `replySent` say whether the
      two `send`s succeeded; `challenge` is the value `recv` stored, `None`
      when it returned an error. */
  function ClientHandshake(host: Endian, helloSent: bool, challenge: Option<bv64>, replySent: bool): (r: Response)
    ensures Ntohl(host, r.hello) == Magic
    ensures r.reply.Some? <==> helloSent && challenge.Some?
    ensures r.reply.Some? ==> Ntohll(host, r.reply.value) == Expected(Ntohll(host, challenge.value))
    ensures r.ok <==> helloSent && challenge.Some? && replySent
  {
    HtonlRoundTrip(host, Magic);
    var hello := Htonl(host, Magic);
    if !helloSent || challenge.None? then Response(hello, None, false)
    else
      var x := Ntohll(host, challenge.value);
      var result := Htonll(host, Expected(x));
      HtonllRoundTrip(host, Expected(x));
      Response(hello, Some(result), replySent)
  }
}
