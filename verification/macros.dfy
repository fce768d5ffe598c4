/** The macro language: `build_macro` compiles the lines of a macro file into
    a sequence of actions, and `play_sequence` runs those actions against the
    virtual controller.

    A compiled action keeps what the compiler captured: key names as written
    (they are looked up in `keycode_map` only when the action plays) and
    joystick coordinates as the text the float extraction consumed. */
module Macros {
  import opened Wrappers
  import opened Common
  import opened Stream
  import opened Controller

  /** One entry of a `macro_sequence`. `Play` carries the macro names whose
      digests the line listed; `Note` is the placeholder action of
      `undefined_macro_seq`, which only writes to standard output. */
  datatype Action =
    | Press(key: string)
    | Release(key: string)
    | Wait(ms: int)
    | Joy(side: Side, x: string, y: string)
    | Play(names: seq<string>)
    | Sync
    | Note

  /** What one line of a macro file contributes: nothing, one action, or the
      failure of the whole compilation. */
  datatype LineResult = Skip | Append(action: Action) | Fail

  /** The commands the compiler recognises. */
  const Commands: set<string> := {"press", "release", "wait", "joy_l", "joy_r", "play"}

  // ---------------------------------------------------------------------------
  // The command word.

  /** Index just past the first word of `line`. */
  function CommandEnd(line: string): (j: nat)
    ensures j <= |line|
  {
    WordEnd(line, SpaceEnd(line, 0))
  }

  /** The first word of `line`, or `""` when the line is only whitespace:
      what `ss >> command` leaves in `command`. */
  function Command(line: string): string {
    line[SpaceEnd(line, 0)..CommandEnd(line)]
  }

  /** The words after the command. */
  function Arguments(line: string): seq<string> {
    TokensFrom(line, CommandEnd(line))
  }

  /** The stream right after `ss >> command`. */
  function AfterCommand(line: string): (s: Stream)
    ensures s.Valid()
  {
    ExtractWord(Open(line)).rest
  }

  // ---------------------------------------------------------------------------
  // One line.

  /** `press` / `release`: exactly one key word, and no word after it. */
  function ParseKey(s: Stream, press: bool): LineResult
    requires s.Valid()
  {
    var key := ExtractWord(s);
    if key.rest.fail then Fail
    else if !ExtractWord(key.rest).rest.fail then Fail
    else Append(if press then Press(key.value) else Release(key.value))
  }

  /** `wait`: an `int`; the trailing check sits in the failure branch only,
      so whatever follows the number is never looked at. */
  function ParseWait(s: Stream): LineResult
    requires s.Valid()
  {
    var n := ExtractInt(s);
    if n.rest.fail then Fail else Append(Wait(n.value))
  }

  /** `joy_l` / `joy_r`: `[`, a float, one ignored character, a float, `]`,
      and no word after it. */
  function ParseJoy(s: Stream, side: Side): LineResult
    requires s.Valid()
  {
    var open := ExtractChar(s);
    if open.rest.fail || open.value != '[' then Fail
    else
      var x := ExtractFloat(open.rest);
      if x.rest.fail then Fail
      else
        var sep := Ignore1(x.rest);
        if sep.fail then Fail
        else
          var y := ExtractFloat(sep);
          if y.rest.fail then Fail
          else
            var close := ExtractChar(y.rest);
            if close.rest.fail || close.value != ']' then Fail
            else if !ExtractWord(close.rest).rest.fail then Fail
            else Append(Joy(side, x.value, y.value))
  }

  /** The `while (ss >> macro_id)` loop of a `play` line: every remaining word
      is taken as a macro name, a `,` right after a word is dropped, and the
      loop only ends once an extraction has failed. */
  function PlayNames(s: Stream, names: seq<string>): (r: (Stream, seq<string>))
    requires s.Valid()
    ensures r.0.Valid() && r.0.text == s.text
    decreases |s.text| - s.pos
  {
    var w := ExtractWord(s);
    if w.rest.fail then (w.rest, names)
    else
      var p := Peek(w.rest);
      var next := if p.value == Some(',') then Ignore1(p.rest) else p.rest;
      PlayNames(next, names + [w.value])
  }

  /** The name loop leaves the stream failed. */
  lemma {:induction false} PlayNamesFails(s: Stream, names: seq<string>)
    requires s.Valid()
    ensures PlayNames(s, names).0.fail
    decreases |s.text| - s.pos
  {
    var w := ExtractWord(s);
    if !w.rest.fail {
      var p := Peek(w.rest);
      var next := if p.value == Some(',') then Ignore1(p.rest) else p.rest;
      PlayNamesFails(next, names + [w.value]);
    }
  }

  /** `play`: `[`, the names, `]`, and no word after it. */
  function ParsePlay(s: Stream): LineResult
    requires s.Valid()
  {
    var open := ExtractChar(s);
    if open.rest.fail || open.value != '[' then Fail
    else
      var (after, names) := PlayNames(open.rest, []);
      var close := ExtractChar(after);
      if close.rest.fail || close.value != ']' then Fail
      else if !ExtractWord(close.rest).rest.fail then Fail
      else Append(Play(names))
  }

  /** The body of the `while (std::getline(...))` loop for one line. */
  function ParseLine(line: string): LineResult {
    if line == "" then Skip
    else
      var s := AfterCommand(line);
      var command := Command(line);
      if command == "press" then ParseKey(s, true)
      else if command == "release" then ParseKey(s, false)
      else if command == "wait" then ParseWait(s)
      else if command == "joy_l" then ParseJoy(s, Left)
      else if command == "joy_r" then ParseJoy(s, Right)
      else if command == "play" then ParsePlay(s)
      else Skip
  }

  // ---------------------------------------------------------------------------
  // Line-level characterizations against whitespace tokenization.

  /** The stream after the command word still holds exactly the argument
      words. */
  lemma AfterCommandPending(line: string)
    requires Command(line) != ""
    ensures Pending(AfterCommand(line)) == Arguments(line)
    ensures !AfterCommand(line).fail
  {
    var p := SpaceEnd(line, 0);
    if p < |line| {
      var q := WordEnd(line, p);
      if q == |line| {
        assert TokensFrom(line, q) == [];
      }
    }
  }

  /** After a non-empty command word the stream is positioned just past it. */
  lemma AfterCommandAt(line: string)
    requires Command(line) != ""
    ensures line != ""
    ensures AfterCommand(line).text == line && AfterCommand(line).pos == CommandEnd(line)
  {
  }

  /** The command word is the first whitespace-separated word of the line. */
  lemma CommandIsFirstToken(line: string)
    ensures Command(line) == "" <==> Tokens(line) == []
    ensures Command(line) != "" ==> Tokens(line) == [Command(line)] + Arguments(line)
  {
  }

  /** `press k` and `release k` compile to one action carrying `k` exactly
      when `k` is the only argument word; the name is not checked against
      `keycode_map` here. */
  lemma KeyLine(line: string)
    requires Command(line) == "press" || Command(line) == "release"
    ensures var args := Arguments(line);
      ParseLine(line) == if |args| != 1 then Fail
        else if Command(line) == "press" then Append(Press(args[0]))
        else Append(Release(args[0]))
  {
    var s := AfterCommand(line);
    AfterCommandPending(line);
    ExtractWordReadsToken(s);
    var key := ExtractWord(s);
    if !key.rest.fail {
      ExtractWordReadsToken(key.rest);
    }
  }

  /** `wait` compiles to `Wait(n)` when the text after the command starts,
      after whitespace, with an `int` `n`, and fails otherwise; nothing after
      the number matters. */
  lemma WaitLine(line: string)
    requires Command(line) == "wait"
    ensures var n := IntPrefix(line[SpaceEnd(line, CommandEnd(line))..]);
      ParseLine(line) == if n.Some? then Append(Wait(n.value)) else Fail
  {
    var s := AfterCommand(line);
    assert s.pos == CommandEnd(line);
    if s.eof {
      assert SpaceEnd(line, CommandEnd(line)) == |line|;
    }
  }

  /** `wait 500` compiles to a 500 ms wait. */
  lemma WaitExample()
    ensures ParseLine("wait 500") == Append(Wait(500))
  {
    var line := "wait 500";
    SpaceEndOf(line, 0, 0);
    WordEndOf(line, 0, 4);
    assert line[0..4] == "wait";
    SpaceEndOf(line, 4, 5);
    assert line[5..] == "500";
    WaitLine(line);
    IntPrefix500();
  }

  /** Every `play` line fails: the name loop stops only on a failed
      extraction, so the `]` can never be read. */
  lemma PlayLineFails(line: string)
    requires Command(line) == "play"
    ensures ParseLine(line) == Fail
  {
    var s := AfterCommand(line);
    var open := ExtractChar(s);
    if !open.rest.fail && open.value == '[' {
      var (after, names) := PlayNames(open.rest, []);
      PlayNamesFails(open.rest, []);
      assert ExtractChar(after).rest.fail;
    }
  }

  /** A joystick line either fails or appends one joystick action for the
      side its command names, whose coordinates are numbers; the first
      character after the command that is not whitespace is `[`, and the
      last one of the line is `]`. */
  lemma JoyLine(line: string)
    requires Command(line) == "joy_l" || Command(line) == "joy_r"
    ensures ParseLine(line) == Fail || ParseLine(line).Append?
    ensures ParseLine(line).Append? ==>
      var a := ParseLine(line).action;
      var p := SpaceEnd(line, CommandEnd(line));
      && a.Joy? && a.side == (if Command(line) == "joy_l" then Left else Right)
      && FloatOk(a.x) && FloatOk(a.y) && FloatFits(a.x) && FloatFits(a.y)
      && p < |line| && line[p] == '['
      && exists q :: p < q < |line| && line[q] == ']' && forall k :: q < k < |line| ==> IsSpace(line[k])
  {
    hide ParseLine, ParseJoy;
    AfterCommandAt(line);
    var s := AfterCommand(line);
    if Command(line) == "joy_l" {
      JoyLeftLine(line);
      JoyShape(s, Left);
    } else {
      JoyRightLine(line);
      JoyShape(s, Right);
    }
  }

  lemma JoyLeftLine(line: string)
    requires Command(line) == "joy_l"
    ensures ParseLine(line) == ParseJoy(AfterCommand(line), Left)
  {
    hide ParseKey, ParseWait, ParseJoy, ParsePlay, AfterCommand;
  }

  lemma JoyRightLine(line: string)
    requires Command(line) == "joy_r"
    ensures ParseLine(line) == ParseJoy(AfterCommand(line), Right)
  {
    hide ParseKey, ParseWait, ParseJoy, ParsePlay, AfterCommand;
  }

  lemma JoyShape(s: Stream, side: Side)
    requires s.Valid()
    ensures ParseJoy(s, side) == Fail || ParseJoy(s, side).Append?
    ensures ParseJoy(s, side).Append? ==>
      var a := ParseJoy(s, side).action;
      var p := SpaceEnd(s.text, s.pos);
      && a.Joy? && a.side == side && FloatOk(a.x) && FloatOk(a.y) && FloatFits(a.x) && FloatFits(a.y)
      && p < |s.text| && s.text[p] == '['
      && exists q :: p < q < |s.text| && s.text[q] == ']' && forall k :: q < k < |s.text| ==> IsSpace(s.text[k])
  {
    hide ExtractChar, ExtractWord, ExtractFloat, Ignore1;
    if ParseJoy(s, side).Append? {
      var open := ExtractChar(s);
      ExtractCharAt(s);
      var x := ExtractFloat(open.rest);
      var y := ExtractFloat(Ignore1(x.rest));
      var close := ExtractChar(y.rest);
      ExtractCharAt(y.rest);
      ExtractWordBlank(close.rest);
      var q := SpaceEnd(y.rest.text, y.rest.pos);
      assert s.text[q] == ']';
    }
  }

  /** Helper: `ParseJoy` when every extraction along the way succeeds. */
  lemma JoyOfParts(s: Stream, side: Side, open: Read<char>, x: Read<string>, sep: Stream, y: Read<string>, close: Read<char>)
    requires s.Valid()
    requires open == ExtractChar(s) && !open.rest.fail && open.value == '['
    requires x == ExtractFloat(open.rest) && !x.rest.fail
    requires sep == Ignore1(x.rest) && !sep.fail
    requires y == ExtractFloat(sep) && !y.rest.fail
    requires close == ExtractChar(y.rest) && !close.rest.fail && close.value == ']'
    requires ExtractWord(close.rest).rest.fail
    ensures ParseJoy(s, side) == Append(Joy(side, x.value, y.value))
  {
    hide ExtractChar, ExtractFloat, Ignore1, ExtractWord;
  }

  /** The converse of `JoyShape`: after optional whitespace, `[`, optional
      whitespace, a float lexeme `strtof` accepts in range, any one
      character, optional whitespace, a second such lexeme, optional
      whitespace, `]` and only whitespace after it compile to the joystick
      action carrying the two lexemes. */
  lemma JoyAccepts(s: Stream, side: Side, a: nat, b: nat, c: nat)
    requires s.Valid() && s.Good()
    requires SkipSpace(s) < |s.text| && s.text[SkipSpace(s)] == '['
    requires a == SpaceEnd(s.text, SkipSpace(s) + 1)
    requires FloatEnd(s.text, a) < |s.text|
    requires FloatOk(s.text[a..FloatEnd(s.text, a)]) && FloatFits(s.text[a..FloatEnd(s.text, a)])
    requires b == SpaceEnd(s.text, FloatEnd(s.text, a) + 1) && b < |s.text|
    requires FloatOk(s.text[b..FloatEnd(s.text, b)]) && FloatFits(s.text[b..FloatEnd(s.text, b)])
    requires c == SpaceEnd(s.text, FloatEnd(s.text, b)) && c < |s.text| && s.text[c] == ']'
    requires SpaceEnd(s.text, c + 1) == |s.text|
    ensures ParseJoy(s, side) == Append(Joy(side, s.text[a..FloatEnd(s.text, a)], s.text[b..FloatEnd(s.text, b)]))
  {
    hide FloatOk, FloatFits, FloatEnd, SpaceEnd, ExtractFloat, ExtractChar, ExtractWord, Ignore1, ParseJoy;
    var t := s.text;
    var p := SkipSpace(s);
    var qa := FloatEnd(t, a);
    var qb := FloatEnd(t, b);
    ExtractCharFrom(s, s.pos, p);
    ExtractFloatFrom(s, p + 1, a, qa);
    Ignore1From(s, qa);
    ExtractFloatFrom(s, qa + 1, b, qb);
    ExtractCharFrom(s, qb, c);
    ExtractWordAtEnd(s.(pos := c + 1));
    assert s.(pos := s.pos) == s;
    hide *;
    var open := ExtractChar(s);
    var x := ExtractFloat(open.rest);
    var sep := Ignore1(x.rest);
    var y := ExtractFloat(sep);
    var close := ExtractChar(y.rest);
    JoyOfParts(s, side, open, x, sep, y, close);
  }

  /** The coordinates of the examples below are numbers `strtof` accepts
      in full and in range. */
  lemma HalfCoordinate()
    ensures FloatOk("0.5") && FloatFits("0.5")
  {
    assert ExpIndex("0.5") == 3 && ExpValue("0.5") == 0;
    assert "0.5"[..3] == "0.5" && IsDigit("0.5"[0]);
    assert DigitsOf("0.5") == "05" && DigitsValue("05") == 5;
    assert DotIndex("0.5") == 1 && "0.5"[1..] == ".5" && DigitsOf(".5") == "5";
    FitsOf("0.5", "0.5", 5, 0, 1);
  }

  lemma QuarterCoordinate()
    ensures FloatOk("-0.25") && FloatFits("-0.25")
  {
    assert ExpIndex("-0.25") == 5 && ExpValue("-0.25") == 0;
    assert "-0.25"[..5] == "-0.25" && IsDigit("-0.25"[1]);
    assert "025"[..2] == "02" && "02"[..1] == "0" && DigitsValue("02") == 2;
    assert DigitsOf("-0.25") == "025" && DigitsValue("025") == 25;
    assert DotIndex("-0.25") == 2 && "-0.25"[2..] == ".25" && DigitsOf(".25") == "25";
    FitsOf("-0.25", "-0.25", 25, 0, 2);
  }

  lemma OneCoordinate()
    ensures FloatOk("1") && FloatFits("1")
  {
    assert ExpIndex("1") == 1 && ExpValue("1") == 0;
    assert "1"[..1] == "1" && IsDigit("1"[0]);
    assert DigitsOf("1") == "1" && DigitsValue("1") == 1;
    assert DotIndex("1") == 1 && "1"[1..] == "" && DigitsOf("") == "";
    FitsOf("1", "1", 1, 0, 0);
  }

  lemma TwoCoordinate()
    ensures FloatOk("2") && FloatFits("2")
  {
    assert ExpIndex("2") == 1 && ExpValue("2") == 0;
    assert "2"[..1] == "2" && IsDigit("2"[0]);
    assert DigitsOf("2") == "2" && DigitsValue("2") == 2;
    assert DotIndex("2") == 1 && "2"[1..] == "" && DigitsOf("") == "";
    FitsOf("2", "2", 2, 0, 0);
  }

  /** The command word of a line that starts `joy_l ` and has no other
      space. */
  lemma JoyLeftCommand(line: string)
    requires line == "joy_l [0.5,-0.25]"
    ensures Command(line) == "joy_l"
    ensures AfterCommand(line) == Stream(line, 5, false, false)
  {
    SpaceEndOf(line, 0, 0);
    WordEndOf(line, 0, 5);
    assert line[0..5] == "joy_l";
  }

  /** Where the extractions of the first coordinate stop on
      `joy_l [0.5,-0.25]`. */
  lemma JoyLeftScanX(line: string)
    requires line == "joy_l [0.5,-0.25]"
    ensures SpaceEnd(line, 5) == 6 && line[6] == '[' && SpaceEnd(line, 7) == 7
    ensures FloatEnd(line, 7) == 10 && line[7..10] == "0.5"
  {
    SpaceEndOf(line, 5, 6);
    assert FloatScan(line, 10, true, false, true) == 10;
    assert FloatScan(line, 9, true, false, true) == 10;
    assert FloatScan(line, 8, false, false, true) == 10;
    assert FloatScan(line, 7, false, false, false) == 10;
  }

  /** Where the extractions of the second coordinate and the `]` stop on
      `joy_l [0.5,-0.25]`. */
  lemma JoyLeftScanY(line: string)
    requires line == "joy_l [0.5,-0.25]"
    ensures SpaceEnd(line, 11) == 11
    ensures FloatEnd(line, 11) == 16 && line[11..16] == "-0.25"
    ensures SpaceEnd(line, 16) == 16 && line[16] == ']' && SpaceEnd(line, 17) == |line|
  {
    assert FloatScan(line, 16, true, false, true) == 16;
    assert FloatScan(line, 15, true, false, true) == 16;
    assert FloatScan(line, 14, true, false, true) == 16;
    assert FloatScan(line, 13, false, false, true) == 16;
    assert FloatScan(line, 12, false, false, false) == 16;
  }

  /** `joy_l [0.5,-0.25]` compiles to a left joystick action at (0.5, -0.25). */
  lemma JoyLeftExample()
    ensures ParseLine("joy_l [0.5,-0.25]") == Append(Joy(Left, "0.5", "-0.25"))
  {
    var line := "joy_l [0.5,-0.25]";
    JoyLeftCommand(line);
    JoyLeftScanX(line);
    JoyLeftScanY(line);
    JoyLeftLine(line);
    HalfCoordinate();
    QuarterCoordinate();
    hide *;
    JoyAccepts(AfterCommand(line), Left, 7, 11, 16);
  }

  /** The command word of `joy_r [1x2]`. */
  lemma JoyRightCommand(line: string)
    requires line == "joy_r [1x2]"
    ensures Command(line) == "joy_r"
    ensures AfterCommand(line) == Stream(line, 5, false, false)
  {
    SpaceEndOf(line, 0, 0);
    WordEndOf(line, 0, 5);
    assert line[0..5] == "joy_r";
  }

  /** Where the extractions stop on `joy_r [1x2]`. */
  lemma JoyRightScan(line: string)
    requires line == "joy_r [1x2]"
    ensures SpaceEnd(line, 5) == 6 && line[6] == '[' && SpaceEnd(line, 7) == 7
    ensures FloatEnd(line, 7) == 8 && line[7..8] == "1"
    ensures SpaceEnd(line, 9) == 9 && FloatEnd(line, 9) == 10 && line[9..10] == "2"
    ensures SpaceEnd(line, 10) == 10 && line[10] == ']' && SpaceEnd(line, 11) == |line|
  {
    SpaceEndOf(line, 5, 6);
    assert FloatScan(line, 8, false, false, true) == 8;
    assert FloatScan(line, 10, false, false, true) == 10;
  }

  /** `joy_r [1x2]` compiles to a right joystick action at (1, 2): the
      character between the coordinates is dropped whatever it is. */
  lemma JoyRightExample()
    ensures ParseLine("joy_r [1x2]") == Append(Joy(Right, "1", "2"))
  {
    var line := "joy_r [1x2]";
    JoyRightCommand(line);
    JoyRightScan(line);
    JoyRightLine(line);
    OneCoordinate();
    TwoCoordinate();
    hide *;
    JoyAccepts(AfterCommand(line), Right, 7, 9, 10);
  }

  /** Blank lines, whitespace-only lines and lines whose first word is not a
      command add nothing and do not fail. */
  lemma UnknownLine(line: string)
    requires Command(line) !in Commands
    ensures ParseLine(line) == Skip
  {
  }

  /** A line never compiles to `Play`, `Sync` or `Note`. */
  lemma ParsedActions(line: string)
    ensures ParseLine(line).Append? ==>
      var a := ParseLine(line).action;
      a.Press? || a.Release? || a.Wait? || a.Joy?
  {
    if Command(line) == "play" && line != "" {
      PlayLineFails(line);
    }
  }

  // ---------------------------------------------------------------------------
  // Whole files.

  /** Some line of the file fails. */
  predicate Rejects(lines: seq<string>) {
    exists i :: 0 <= i < |lines| && ParseLine(lines[i]) == Fail
  }

  /** The actions the lines append, in line order. */
  function Compiled(lines: seq<string>): seq<Action> {
    if lines == [] then []
    else
      var last := ParseLine(lines[|lines| - 1]);
      Compiled(lines[..|lines| - 1]) + if last.Append? then [last.action] else []
  }

  /** `build_macro` over the lines `std::getline` delivers: the first failing
      line abandons the whole file; otherwise the appended actions are
      followed by one final `Sync`. */
  method BuildMacro(lines: seq<string>) returns (r: Option<seq<Action>>)
    ensures r.None? <==> Rejects(lines)
    ensures r.Some? ==> r.value == Compiled(lines) + [Sync]
  {
    hide ParseLine;
    var sequence: seq<Action> := [];
    var i := 0;
    while i < |lines|
      invariant 0 <= i <= |lines|
      invariant !Rejects(lines[..i])
      invariant sequence == Compiled(lines[..i])
    {
      assert lines[..i + 1][..i] == lines[..i];
      var result := ParseLine(lines[i]);
      if result == Fail {
        return None;
      }
      if result.Append? {
        sequence := sequence + [result.action];
      }
      i := i + 1;
    }
    assert lines[..i] == lines;
    return Some(sequence + [Sync]);
  }

  /** What `build_macro` returns, as a value. */
  function Built(lines: seq<string>): Option<seq<Action>> {
    if Rejects(lines) then None else Some(Compiled(lines) + [Sync])
  }

  /** Compiling a file of lines that all add nothing gives just the final
      `Sync`. */
  lemma {:induction false} SkippedLinesCompileToSync(lines: seq<string>)
    requires forall i :: 0 <= i < |lines| ==> ParseLine(lines[i]) == Skip
    ensures Compiled(lines) == []
    ensures Built(lines) == Some([Sync])
  {
    hide ParseLine;
    if lines != [] {
      SkippedLinesCompileToSync(lines[..|lines| - 1]);
    }
    assert !Rejects(lines) by {
      forall i | 0 <= i < |lines|
        ensures ParseLine(lines[i]) != Fail
      {
      }
    }
    assert Compiled(lines) + [Sync] == [Sync];
  }

  /** Compiled actions come only from `press`, `release`, `wait` and the
      joystick commands. */
  lemma {:induction false} CompiledActions(lines: seq<string>)
    ensures forall k :: 0 <= k < |Compiled(lines)| ==>
      var a := Compiled(lines)[k];
      a.Press? || a.Release? || a.Wait? || a.Joy?
  {
    if lines != [] {
      CompiledActions(lines[..|lines| - 1]);
      ParsedActions(lines[|lines| - 1]);
    }
  }

  /** A compiled macro has no `Play` action and exactly one `Sync`, its last
      action. */
  lemma BuiltShape(lines: seq<string>)
    requires Built(lines).Some?
    ensures var acts := Built(lines).value;
      && |acts| >= 1 && acts[|acts| - 1] == Sync
      && (forall k :: 0 <= k < |acts| ==> !acts[k].Play?)
      && (forall k :: 0 <= k < |acts| - 1 ==> acts[k] != Sync)
  {
    CompiledActions(lines);
  }

  /** Appending lines appends their actions, as long as nothing fails. */
  lemma {:induction false} CompiledAppend(a: seq<string>, b: seq<string>)
    ensures Compiled(a + b) == Compiled(a) + Compiled(b)
    decreases |b|
  {
    if b == [] {
      assert a + b == a;
    } else {
      var b' := b[..|b| - 1];
      assert (a + b)[..|a + b| - 1] == a + b';
      assert (a + b)[|a + b| - 1] == b[|b| - 1];
      CompiledAppend(a, b');
    }
  }

  // ---------------------------------------------------------------------------
  // Playback.

  /** One thing playback does: write a device event, sleep, or throw
      `std::out_of_range` from `keycode_map.at`, which ends the playing
      thread and with it the process. */
  datatype Step = Emit(event: Event) | Sleep(ms: int) | Throw

  /** Actions playback can run without a macro table. */
  predicate Playable(a: Action) {
    !a.Play?
  }

  /** A key action whose name `keycode_map` does not know. */
  predicate UnknownKey(a: Action) {
    (a.Press? || a.Release?) && a.key !in KeycodeMap
  }

  /** The steps one action performs. */
  function PlayAction(a: Action): (t: seq<Step>)
    requires Playable(a)
  {
    match a
    case Press(k) => if k in KeycodeMap then [Emit(PressButton(KeycodeMap[k]))] else [Throw]
    case Release(k) => if k in KeycodeMap then [Emit(ReleaseButton(KeycodeMap[k]))] else [Throw]
    case Wait(ms) => [Emit(SyncEvent), Sleep(ms)]
    case Joy(side, x, y) =>
      var es := SetJoystick(side, x, y);
      [Emit(es[0]), Emit(es[1])]
    case Sync => [Emit(SyncEvent)]
    case Note => []
  }

  /** `play_sequence`: the actions in order, stopping at a throw. */
  function PlaySequence(acts: seq<Action>): (t: seq<Step>)
    requires forall k :: 0 <= k < |acts| ==> Playable(acts[k])
  {
    if acts == [] then []
    else
      var first := PlayAction(acts[0]);
      if Throw in first then first else first + PlaySequence(acts[1..])
  }

  /** Playback of a concatenation is the playback of the first part, then,
      unless it threw, of the second. */
  lemma {:induction false} PlaySequenceAppend(a: seq<Action>, b: seq<Action>)
    requires forall k :: 0 <= k < |a| ==> Playable(a[k])
    requires forall k :: 0 <= k < |b| ==> Playable(b[k])
    ensures forall k :: 0 <= k < |a + b| ==> Playable((a + b)[k])
    ensures PlaySequence(a + b)
         == if Throw in PlaySequence(a) then PlaySequence(a) else PlaySequence(a) + PlaySequence(b)
  {
    hide PlayAction;
    assert forall k :: 0 <= k < |a + b| ==> (a + b)[k] == if k < |a| then a[k] else b[k - |a|];
    if a != [] {
      assert (a + b)[0] == a[0];
      assert (a + b)[1..] == a[1..] + b;
      PlaySequenceAppend(a[1..], b);
    } else {
      assert a + b == b;
    }
  }

  /** An action throws exactly when it names a key `keycode_map` does not
      know. */
  lemma PlayActionThrows(a: Action)
    requires Playable(a)
    ensures Throw in PlayAction(a) <==> UnknownKey(a)
    ensures Throw in PlayAction(a) ==> PlayAction(a) == [Throw]
  {
  }

  /** Playback throws exactly when some action presses or releases a name
      `keycode_map` does not know. */
  lemma {:induction false} PlaySequenceThrows(acts: seq<Action>)
    requires forall k :: 0 <= k < |acts| ==> Playable(acts[k])
    ensures Throw in PlaySequence(acts) <==> exists k :: 0 <= k < |acts| && UnknownKey(acts[k])
  {
    hide PlayAction;
    if acts != [] {
      var rest := acts[1..];
      PlaySequenceThrows(rest);
      PlayActionThrows(acts[0]);
      if exists k :: 0 <= k < |acts| && UnknownKey(acts[k]) {
        var k :| 0 <= k < |acts| && UnknownKey(acts[k]);
        if k > 0 {
          assert UnknownKey(rest[k - 1]);
        }
      }
      if exists k :: 0 <= k < |rest| && UnknownKey(rest[k]) {
        var k :| 0 <= k < |rest| && UnknownKey(rest[k]);
        assert UnknownKey(acts[k + 1]);
      }
    }
  }

  /** Once playback throws, nothing after the throw happens. */
  lemma {:induction false} PlaySequenceStopsAtThrow(acts: seq<Action>)
    requires forall k :: 0 <= k < |acts| ==> Playable(acts[k])
    ensures Throw in PlaySequence(acts) ==> PlaySequence(acts)[|PlaySequence(acts)| - 1] == Throw
  {
    hide PlayAction;
    if acts != [] {
      PlayActionThrows(acts[0]);
      if Throw !in PlayAction(acts[0]) {
        PlaySequenceStopsAtThrow(acts[1..]);
      }
    }
  }

  /** Every sleep is directly preceded by a sync report: a `wait` flushes
      the events before it delays. */
  predicate SyncBeforeSleep(t: seq<Step>) {
    forall k :: 0 <= k < |t| && t[k].Sleep? ==> k > 0 && t[k - 1] == Emit(SyncEvent)
  }

  /** Every event written is one the device announced. */
  predicate EventsWellFormed(t: seq<Step>) {
    forall k :: 0 <= k < |t| && t[k].Emit? ==> WellFormed(t[k].event)
  }

  lemma PlayActionSteps(a: Action)
    requires Playable(a)
    ensures SyncBeforeSleep(PlayAction(a)) && EventsWellFormed(PlayAction(a))
  {
    if a.Joy? {
      EmittersWellFormed(BtnA, a.side, a.x, a.y);
    } else if a.Press? && a.key in KeycodeMap {
      EmittersWellFormed(KeycodeMap[a.key], Left, "", "");
    } else if a.Release? && a.key in KeycodeMap {
      EmittersWellFormed(KeycodeMap[a.key], Left, "", "");
    }
  }

  /** Both trace properties survive concatenation. */
  lemma StepsAppend(t: seq<Step>, u: seq<Step>)
    requires SyncBeforeSleep(t) && EventsWellFormed(t)
    requires SyncBeforeSleep(u) && EventsWellFormed(u)
    ensures SyncBeforeSleep(t + u) && EventsWellFormed(t + u)
  {
    forall k | 0 <= k < |t + u| && (t + u)[k].Sleep?
      ensures k > 0 && (t + u)[k - 1] == Emit(SyncEvent)
    {
      if k >= |t| {
        assert (t + u)[k] == u[k - |t|];
      } else {
        assert (t + u)[k] == t[k];
      }
    }
    forall k | 0 <= k < |t + u| && (t + u)[k].Emit?
      ensures WellFormed((t + u)[k].event)
    {
      if k >= |t| {
        assert (t + u)[k] == u[k - |t|];
      } else {
        assert (t + u)[k] == t[k];
      }
    }
  }

  /** Playback writes only announced events, and syncs before every sleep. */
  lemma {:induction false} PlaySequenceSteps(acts: seq<Action>)
    requires forall k :: 0 <= k < |acts| ==> Playable(acts[k])
    ensures SyncBeforeSleep(PlaySequence(acts)) && EventsWellFormed(PlaySequence(acts))
  {
    if acts != [] {
      PlayActionSteps(acts[0]);
      if Throw !in PlayAction(acts[0]) {
        PlaySequenceSteps(acts[1..]);
        StepsAppend(PlayAction(acts[0]), PlaySequence(acts[1..]));
      }
    }
  }

  /** A compiled macro whose key names are all known plays to the end, and
      its last step is the sync report of the final action. */
  lemma BuiltEndsWithSync(lines: seq<string>)
    requires Built(lines).Some?
    requires forall k :: 0 <= k < |Compiled(lines)| ==> !UnknownKey(Compiled(lines)[k])
    ensures forall k :: 0 <= k < |Built(lines).value| ==> Playable(Built(lines).value[k])
    ensures var t := PlaySequence(Built(lines).value);
      Throw !in t && |t| > 0 && t[|t| - 1] == Emit(SyncEvent)
  {
    var c := Compiled(lines);
    BuiltShape(lines);
    CompiledActions(lines);
    assert forall k :: 0 <= k < |c| ==> Playable(c[k]);
    PlaySequenceThrows(c);
    PlaySequenceAppend(c, [Sync]);
    assert PlaySequence([Sync]) == [Emit(SyncEvent)];
  }

  /** `undefined_macro_seq`: one action that only writes to standard
      output. */
  const UndefinedMacro: seq<Action> := [Note]

  /** Playing `undefined_macro_seq` writes no device event. */
  lemma UndefinedMacroSilent()
    ensures PlaySequence(UndefinedMacro) == []
  {
  }
}
