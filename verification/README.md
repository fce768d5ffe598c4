# barcode-machine, modelled in Dafny

barcode-machine turns typed codes into gamepad input. A client reads key
presses from a Linux input device (a barcode scanner typing a code, say). On
Enter it hashes the string with SHA-256 and sends the 32-byte digest to a
server. The server owns a virtual uinput gamepad. It keeps a table from
digests to compiled macros. It plays the macro a digest names, unless that
macro's per-client cooldown is still running.

This project models the sequential core of that system and proves properties
of the model:

- `common.dfy` (`Common`): the `hash` mixer and its inverse, the challenge
  round count `x mod 69`, and `htonl`/`htonll` and their inverses on either
  host byte order. It also gives the byte layout `send` and `recv` move
  between hosts.
- `macro_id.dfy` (`MacroId`): the 32-byte macro id, its `memcmp` order and
  equality, and the base64 encoder (`base64_encode` and `operator<<`),
  proved equal to section 4 of RFC 4648.
- `stream.dfy` (`Stream`): the parts of `std::stringstream` the parsers use.
  That is word, `char`, `int` and `float` extraction, `ignore(1, ',')` and
  `peek()`, each with its fail and eof bits.
- `controller.dfy` (`Controller`): the events `press_button`,
  `release_button`, `sync` and `set_joystick` write. It also holds the
  registered buttons and axes, and `keycode_map`.
- `macros.dfy` (`Macros`): `build_macro`, line by line, plus
  `play_sequence` and `undefined_macro_seq`.
- `server.dfy` (`Server`): the server handshake and the cooldown state
  machine. It also has one step of the receive loop and of the dispatch
  loop, the macro table lookup with its fallback, and `load_macros`.
- `client.dfy` (`Client`): `keymap` and `read_str`, `read_conf`, and the
  client handshake.
- `protocol.dfy` (`Protocol`): the two handshakes composed across two hosts
  of any byte order.

Time is integer milliseconds. The clock, the random reads, the bytes
`recv` and `read` return, the pause flag and SHA-256 are all parameters.

Three behaviours of the code are worth stating on their own:

- Cooldown increment. A suppressed trigger adds one second to the window.
  After triggers at 0 and 200 ms the window lasts 1500 ms, so a trigger at
  1200 ms is suppressed and extends the window to 2500 ms. The next trigger
  at or after 2500 ms plays. `Server.CooldownTrace` proves this trace.
- Session queue. The queue is an unbounded `std::queue`: every full read
  taken while not paused is queued, and none is dropped.
- `play` lines. No `play` line ever compiles. The name loop
  `while (ss >> macro_id)` only ends when an extraction fails. That leaves
  the stream failed, so the closing `]` can never be read and every `play`
  line fails the whole file. `Macros.PlayLineFails` proves this.

## Model

| member | source | states |
|---|---|---|
| Common.HashInverse | common.h:11-25 | `Unhash` undoes `hash` on every 64-bit value, so `hash` is a bijection |
| Common.HashInjective | common.h:11-25 | two values hash to the same value exactly when they are equal |
| Common.HashPowInverse | server_main.cpp:226-231 | the hash iterated `n` times can be undone by `n` inverse rounds |
| Common.ExpectedFacts | server_main.cpp:226-231 | there are at most 68 rounds; zero rounds return the challenge itself; two challenges with the same round count give the same expected reply only when they are equal |
| Common.ChallengeResponse | client_main.cpp:134-138 | the round loop returns `hash` applied `x mod 69` times to `x`; its result inverts back to `x` |
| Common.HtonllBytes | common.h:27-33 | on a little-endian host `htonll` puts the most significant byte first in memory; on a big-endian host it is the identity |
| Common.HtonllRoundTrip | common.h:27-33 | `htonll` is its own inverse, and `ntohll` undoes it on either host |
| Common.HtonlRoundTrip | client_main.cpp:117 | `ntohl` undoes `htonl` on either host |
| Common.FromMem64Mem64 | server_main.cpp:233-235 | a host reads back the eight bytes it laid out |
| Common.FromMem32Mem32 | server_main.cpp:207-209 | a host reads back the four bytes it laid out |
| Common.HtonllIsNetworkOrder | common.h:27-33 | whatever the host, the bytes of `htonll(x)` in memory are `x` most significant first |
| Common.HtonlIsNetworkOrder | client_main.cpp:117 | whatever the host, the bytes of `htonl(x)` in memory are `x` most significant first |
| Common.NtohllOfNetworkOrder | common.h:27-33 | reading most-significant-first bytes and applying `ntohll` gives the value back on either host |
| Common.NtohlOfNetworkOrder | server_main.cpp:214 | reading most-significant-first bytes and applying `ntohl` gives the value back on either host |
| Common.HtonllTwiceSpliced | server_main.cpp:219 | on a little-endian host, `htonll` of a call expression, which runs the call twice, equals `htonll` of one value whose low half comes from one result and whose high half from the other; with equal results it is plain `htonll` |
| Common.Transfer64 | server_main.cpp:219-220 | a value sent with `htonll` from one host is read back by `ntohll` on any other host |
| Common.Transfer32 | server_main.cpp:207-214 | a value sent with `htonl` from one host is read back by `ntohl` on any other host |
| MacroId.MemcmpZero | macros.h:26-28 | `memcmp` over the id bytes is zero exactly when the ids are equal |
| MacroId.MemcmpSwap | macros.h:22-24 | swapping the operands of `memcmp` flips the sign |
| MacroId.MemcmpFirstDifference | macros.h:22-24 | `memcmp` is negative exactly when the first differing byte of the left operand is smaller |
| MacroId.MemcmpTransitive | macros.h:22-24 | `memcmp < 0` is transitive |
| MacroId.IdOrder | macros.h:19-29 | `operator<` is a strict total order and `operator==` is equality, as `std::map` needs |
| MacroId.Base64Length | macros.h:54-70 | the encoding of `n` bytes has `4 * ceil(n / 3)` characters |
| MacroId.Base64Chars | macros.h:31-32 | the encoding is table characters followed by exactly the `=` padding |
| MacroId.ShiftIn | macros.h:57-64 | the bit-buffer main loop emits the characters of the complete 6-bit fields and keeps the bits still owed |
| MacroId.PadOut | macros.h:67-68 | the padding loop appends exactly the `=` characters that bring the length to a multiple of four |
| MacroId.Base64Encode | macros.h:54-70 | `base64_encode` equals RFC 4648 base64 with the given table, and has the padded length |
| MacroId.ShowId | macros.h:33-52 | printing an id gives its 44-character RFC 4648 encoding, whose last character is `=` and whose other characters come from the table |
| Stream.ExtractWord | macros.h:153 | a successful `>> std::string` consumes a non-empty run of non-space characters |
| Stream.ExtractWordReadsToken | client_main.cpp:101 | `>> std::string` delivers exactly the next whitespace-separated word, and fails exactly when none is left |
| Stream.ExtractWordBlank | macros.h:93-101 | a word extraction fails on a good stream only if the rest is whitespace |
| Stream.ExtractCharAt | macros.h:192 | `>> char` takes the first non-space character and leaves the stream just past it |
| Stream.IntPrefix | macros.h:179 | an accepted `int` lies in the 32-bit range and consumed at least one digit |
| Stream.IntPrefixDecimal | macros.h:179 | any number printed in decimal and followed by a non-digit reads back as itself when it fits in 32 bits, and as a failure when it does not |
| Stream.IntPrefix500 | macros.h:179 | `500` reads as 500 |
| Stream.IntPrefixMinus12 | client_main.cpp:106 | `-12x` reads as -12; the rest of the text is not looked at |
| Stream.IntPrefixOverflow | client_main.cpp:106 | 2147483648 does not fit in an `int` and is refused |
| Stream.ExtractFloat | macros.h:198 | an accepted `float` is text `strtof` accepts in full, and its magnitude stays below the one that rounds to infinity; otherwise `failbit` is set |
| Stream.Overflow1e39 | macros.h:198 | `1e39` is out of `float` range, so a line such as `joy_l [1e39,0]` fails |
| Stream.Overflow35e38 | macros.h:198 | `3.5e38`, just above `FLT_MAX`, is out of `float` range |
| Stream.Fits34e38 | macros.h:198 | `3.4e38`, just below `FLT_MAX`, is in `float` range |
| Stream.ExtractFloatAccepts | macros.h:198 | on a good stream, a lexeme `strtof` accepts in full and in range is delivered, and the stream stays good just past it |
| Stream.Peek | macros.h:238 | `peek()` returns the next character without consuming it, and nothing on a failed or exhausted stream |
| Controller.PressButton | controller.h:155-157 | `press_button` writes a key event with value 1 for a registered button |
| Controller.ReleaseButton | controller.h:159-161 | `release_button` writes a key event with value 0 for a registered button |
| Controller.SetJoystick | controller.h:140-153 | a joystick update writes the horizontal axis of the side first, then its vertical axis |
| Controller.NameOfInverse | controller.h:163-194 | each registered button has a name in `keycode_map` that maps back to it |
| Controller.KeycodeMapInverse | controller.h:163-194 | each `keycode_map` name is the name of the button it maps to |
| Controller.KeycodeMapKeys | controller.h:163-194 | `keycode_map` knows exactly the 26 listed names |
| Controller.KeycodeMapValues | controller.h:163-194 | the buttons in `keycode_map` are exactly the registered key bits |
| Controller.KeycodeMapInjective | controller.h:163-194 | distinct names map to distinct buttons |
| Controller.EmittersWellFormed | controller.h:120-161 | every event the emitters write has the right type for its code, and a code the device announced |
| Macros.CommandIsFirstToken | macros.h:151-153 | the command is the first whitespace-separated word of the line, or empty when there is none |
| Macros.AfterCommandPending | macros.h:151-153 | after the command, the stream still holds exactly the remaining words |
| Macros.KeyLine | macros.h:155-176 | `press k` / `release k` compile to one key action carrying `k` exactly when `k` is the only argument; otherwise the file fails |
| Macros.WaitLine | macros.h:177-187 | `wait` compiles to `Wait(n)` when an `int` follows the command, ignoring anything after it, and fails otherwise |
| Macros.JoyLine | macros.h:188-219 | a joystick line fails or appends one joystick action for its side, with numeric coordinates in `float` range; the line's first argument character is `[` |
| Macros.JoyShape | macros.h:188-219 | a joystick argument list that compiles starts with `[` and ends with `]` followed only by whitespace |
| Macros.JoyAccepts | macros.h:188-219 | conversely, `[`, an in-range float, any one character, a second in-range float, `]` and only whitespace after it, with whitespace allowed before each part, compile to the joystick action carrying the two numbers |
| Macros.JoyLeftExample | macros.h:188-213 | `joy_l [0.5,-0.25]` compiles to a left joystick action at (0.5, -0.25) |
| Macros.JoyRightExample | macros.h:198 | `joy_r [1x2]` compiles to a right joystick action at (1, 2): `ignore(1, ',')` drops any one character |
| Macros.WaitExample | macros.h:177-187 | `wait 500` compiles to a 500 ms wait |
| Macros.PlayLineFails | macros.h:220-255 | every `play` line fails, since the name loop ends only on a failed extraction |
| Macros.PlayNamesFails | macros.h:232-241 | the name loop of `play` always leaves the stream failed |
| Macros.UnknownLine | macros.h:256-258 | a blank line, or one whose first word is not a command, adds nothing and does not fail |
| Macros.ParsedActions | macros.h:145-259 | a line only ever compiles to a press, release, wait or joystick action |
| Macros.BuildMacro | macros.h:102-264 | `build_macro` fails exactly when some line fails; otherwise it returns the lines' actions in order, followed by one `Sync` |
| Macros.SkippedLinesCompileToSync | macros.h:145-149 | a file of lines that add nothing compiles to a lone `Sync` |
| Macros.CompiledAppend | macros.h:145-259 | the compiled actions of appended lines are the appended compiled actions |
| Macros.BuiltShape | macros.h:261-263 | a compiled macro holds no `play` action and exactly one `Sync`, its last action |
| Macros.PlayActionThrows | controller.h:163-194 | an action throws at playback exactly when it presses or releases a name `keycode_map` lacks |
| Macros.PlaySequenceThrows | macros.h:77-82 | playback throws exactly when some action names an unknown key |
| Macros.PlaySequenceStopsAtThrow | macros.h:77-82 | once playback throws, nothing after the throw happens |
| Macros.PlaySequenceAppend | macros.h:77-82 | playing a concatenation plays the first part, then the second unless the first threw |
| Macros.PlaySequenceSteps | macros.h:124-128 | playback writes only announced events, and every sleep directly follows a sync report |
| Macros.BuiltEndsWithSync | macros.h:261 | a compiled macro whose key names are all known plays to the end, and its last step is a sync report |
| Macros.UndefinedMacroSilent | macros.h:84-88 | the fallback sequence writes no device event |
| Server.CooldownStep | server_main.cpp:135-157 | a trigger plays exactly when there is no entry or the window has elapsed, and then restarts the window at the base duration; a suppressed trigger keeps the start and sets the duration to the smaller of the old duration plus 1000 ms and 3000 ms |
| Server.Trigger | server_main.cpp:135-157 | a trigger writes the macro's entry with the cooldown decision for it, touches no other entry, and keeps every duration within base and maximum |
| Server.SuppressedTriggersSaturate | server_main.cpp:135-157 | `k` successive triggers of one macro inside its current window are all suppressed; they keep the start and raise the duration by `k` seconds, capped at 3000 ms |
| Server.CooldownTrace | server_main.cpp:43-45 | triggers at 0, 200, 1200 and 2500 ms play, are suppressed, are suppressed, and play |
| Server.ReceiveStep | server_main.cpp:98-122 | a read of 0 bytes ends the loop and marks the session; a full 32-byte read while not paused, and only that, queues the id at the back |
| Server.ReceiveAllQueues | server_main.cpp:98-122 | the receive loop appends exactly the accepted ids, in arrival order, and leaves the cooldowns alone |
| Server.ReceiveAllCloses | server_main.cpp:103-106 | the loop marks a live session for teardown exactly when some read returns 0 |
| Server.Dequeue | server_main.cpp:127-133 | the dequeue takes the front id, or nothing from an empty queue |
| Server.DequeueFifo | server_main.cpp:127-133 | dequeuing as many times as there are ids returns the queue in order |
| Server.Lookup | server_main.cpp:159-167 | the lookup returns the stored sequence, or the fallback, which writes no event |
| Server.DispatchStep | server_main.cpp:124-180 | a marked session stops; an empty queue idles; otherwise the front id is dequeued, its cooldown entry is written by the trigger, the teardown flag is untouched, and the id is played, with its table sequence, exactly when its cooldown allows; cooldown bounds are kept |
| Server.DoubleScanPlaysOnce | server_main.cpp:124-157 | when the same id is queued twice and the first dispatch plays, a second dispatch less than 500 ms later is suppressed and leaves the window at 1500 ms from the first play |
| Server.HandshakeAccepts | server_main.cpp:206-247 | the server accepts exactly when the magic matches, the challenge was sent, and the reply decodes to the expected hash; a wrong magic sends no challenge; the challenge is `htonll` of one value spliced from two random reads, and the expected reply is computed from that spliced value |
| Server.LoadMacros | server_main.cpp:59-66 | a missing `macros` directory leaves the table empty |
| Server.LoadFatalIff | server_main.cpp:68-90 | loading exits exactly when some regular file fails to compile or open |
| Server.LoadLastWins | server_main.cpp:76-87 | a successful load stores under each id the macro of the last regular file whose name digests to it |
| Server.LoadUntouched | server_main.cpp:68-90 | ids no regular file's name digests to keep their earlier entry |
| Client.KeymapInverse | client_main.cpp:35-51 | each key `keymap` maps is the only key typing its character |
| Client.KeymapOnto | client_main.cpp:35-51 | every character that has a key is typed by that key |
| Client.KeymapChars | client_main.cpp:35-51 | every character the map produces is one of its listed characters; Enter, keypad Enter and backspace type nothing |
| Client.Edit | client_main.cpp:66-76 | a non-press leaves the buffer alone; backspace drops the last character if there is one; a mapped key appends its character |
| Client.ReadFromAppend | client_main.cpp:56-80 | reading input in two parts, with no Enter in the first, is reading the first part and then the second from its buffer |
| Client.ReadStopsAtEnter | client_main.cpp:66-69 | the first Enter press ends the string; the Enter is not appended and later reads are not consumed |
| Client.BackspaceErases | client_main.cpp:70-73 | a backspace press removes the last character typed so far |
| Client.PressesOnly | client_main.cpp:62-66 | short reads, releases, repeats and other event types do not change the string |
| Client.ReadTyped | client_main.cpp:56-80 | without Enter or backspace, `read_str` appends exactly the characters the presses type, in order |
| Client.ReadChars | client_main.cpp:74-76 | every character of the returned string is one `keymap` produces |
| Client.Port16 | client_main.cpp:106 | the cast to `uint16_t` gives the value modulo 2^16, and leaves in-range values alone |
| Client.ApplyPair | client_main.cpp:102-112 | `address` and `input_path` are taken verbatim, `port` changes only the port, other names change nothing |
| Client.ReadConf | client_main.cpp:93-114 | with no file the defaults stay; otherwise each pair of words is applied in order; the port stays a 16-bit value |
| Client.LastVerbatimWins | client_main.cpp:101-112 | for `address` and `input_path` the last pair naming the setting wins |
| Client.NoVerbatimKeeps | client_main.cpp:101-112 | an `address` or `input_path` no pair names keeps its value |
| Client.LastPortWins | client_main.cpp:104-109 | the port is the last value `stoi` accepts, truncated to 16 bits |
| Client.NoPortKeeps | client_main.cpp:104-109 | with no accepted `port` value the port is unchanged |
| Client.ClientHandshake | client_main.cpp:116-149 | the hello is the magic in network order; a reply is sent exactly when the hello went out and a challenge came back, and it decodes to the expected hash of the decoded challenge |
| Protocol.HonestClientAccepted | server_main.cpp:206-247 | the server accepts the client program's reply whatever the byte orders of the two hosts and whatever the two random reads return |
| Protocol.WrongReplyRejected | server_main.cpp:240-243 | a reply that decodes to anything but the expected hash is rejected, even though the challenge went out |

## Left out

- Floating point: joystick coordinates are kept as the text `>> float` accepted. `map_controller_range` (controller.h:132-136) and the float formatting in the log lines are not modelled.
- SHA-256 is a parameter `digest`. The client's `send_macro` (client_main.cpp:187-193) is just SHA-256 followed by `send`, so it adds nothing beyond that parameter.
- Threads and locks: the detached playback threads, the per-session mutex and the unlocked access to the cooldown map are left out. Steps are taken one at a time.
- Sockets, files and devices: `socket`/`bind`/`listen`/`accept`, `client_connect` and its one-second retry, `setup_dev`, uinput setup and `destroy_controller` are left out. Their results are parameters where the modelled logic depends on them.
- Short reads in the handshakes: a `recv` that returns 0 or fewer bytes than asked leaves part of the value uninitialised in the source. The model takes the value stored as a parameter.
- `get_random_64bit` returns 0 when `/dev/urandom` cannot be opened. The model takes the results of the two calls that `htonll(get_random_64bit())` makes on a little-endian host as parameters, so this case is included in the values it covers. The order of those two calls is unspecified in C++; the parameters cover both orders.
- Common.Htonll: the model has one byte-order parameter per host. It assumes `__BIG_ENDIAN__` (common.h:27) is defined exactly on big-endian builds, so that `htonll` and the C library's `htonl` agree on the host order. A build where the macro and the real host order disagree is not modelled.
- The `running` flag that SIGINT clears, and termios echo handling: the loops are modelled over a finite input sequence instead.
- `pause_monitor`: the pause flag it toggles is part of each modelled read (`Incoming.paused`).
- The 10 ms poll sleep of `client_input`, and the sleep of a `wait` action, appear only as a step, not as elapsed time.
- Logging to standard output and standard error.
- Line splitting by `std::getline`: a macro file is given as its lines.
- Bytes: a Dafny `char` stands for one byte of a C++ `std::string`. This matters for the "C"-locale `isspace`, for the key characters, and for the macro names given to the `digest` parameter. No behaviour depends on characters outside one byte.
- Numeric key and button codes from the Linux input headers: keys, buttons and axes are symbolic.
- Playback of a `play` action (random choice among the named macros) is left out. No `play` line ever compiles, so a compiled macro never holds one.
- Macros.JoyLine: states one direction only, that a line that compiles is well shaped. The converse is `Macros.JoyAccepts`, stated for the stream after the command. It is not restated per line, because the float and `ignore` rules are kept in `Macros.ParseJoy`.
- Server.LoadMacros: its contract covers only the missing-directory case. The directory loop is stated by `Server.LoadFatalIff`, `Server.LoadLastWins` and `Server.LoadUntouched`.
