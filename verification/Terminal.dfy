/**
 The line editor of firmware/src/at_cmd_engine/terminal/terminal.c: typing, backspace,
 carriage return, line feed and recall from the history, byte by byte.
 */
module Terminal {
  import opened Bytes
  import opened History
  import opened HistoryRing
  import opened Ansi

  /** AT_CMD_CONF_MAX_COMMAND_LENGTH: the size of every command buffer. */
  const COMMAND_SIZE: nat := 512

  datatype Event = NoEvent | EndOfLine | Error

  /** Everything the editor acts on: the command line, the insert position, the decoder and the history. */
  datatype Screen = Screen(text: Line, pos: nat, decoder: Decoder, lines: seq<Line>, read: int, echo: bool)

  /** What every run keeps. */
  ghost predicate Editing(s: Screen) {
    && s.pos <= |s.text| <= COMMAND_SIZE && (|s.text| == COMMAND_SIZE ==> s.pos == COMMAND_SIZE)
    && Bounded(s.decoder)
    && Fits(s.lines) && -1 <= s.read < |s.lines|
    && forall k :: 0 <= k < |s.lines| ==> 0 < |s.lines[k]| < COMMAND_SIZE
  }

  /** Stores a byte at the insert position. */
  function Type(s: Screen, c: byte): Screen
    requires s.pos <= |s.text|
  {
    s.(text := if s.pos < |s.text| then s.text[s.pos := c] else s.text + [c], pos := s.pos + 1)
  }

  function Backspace(s: Screen): Screen
    requires s.pos <= |s.text|
  {
    if s.pos == 0 then s
    else s.(text := if |s.text| == s.pos then s.text[..s.pos - 1] else s.text, pos := s.pos - 1)
  }

  function Recall(s: Screen, read: int): Screen
    requires -1 <= read < |s.lines|
  {
    if read < 0 then s.(read := read) else s.(text := s.lines[read], pos := |s.lines[read]|, read := read)
  }

  /** Where the up key goes: to the last line first, then back as far as the oldest. */
  function Older(s: Screen): int {
    if s.read < 0 then |s.lines| - 1 else if s.read > 0 then s.read - 1 else 0
  }

  /** Where the down key goes, after an up key. */
  function Younger(s: Screen): int {
    if s.read < |s.lines| - 1 then s.read + 1 else s.read
  }

  /** What a byte that stores nothing does. */
  function Act(s: Screen): (Screen, Event)
    requires s.pos <= |s.text| && -1 <= s.read < |s.lines|
  {
    match s.decoder.decision
    case ControlBs => (Backspace(s), NoEvent)
    case ControlLf =>
      if s.text == [] then (s, NoEvent) else (s.(lines := Remember(s.lines, s.text), read := -1), EndOfLine)
    case ControlCr => (s.(pos := 0), NoEvent)
    case KeyUp =>
      if !s.echo then (s, NoEvent) else (Recall(s, Older(s)), NoEvent)
    case KeyDown =>
      if !s.echo || s.read < 0 then (s, NoEvent) else (Recall(s, Younger(s)), NoEvent)
    case _ => (s, NoEvent)
  }

  function Step(s: Screen, c: byte): (Screen, Event)
    requires s.pos <= |s.text| && s.pos <= COMMAND_SIZE && Bounded(s.decoder) && -1 <= s.read < |s.lines|
  {
    var (d, r) := DecodeByte(s.decoder, c, COMMAND_SIZE - s.pos);
    var t := s.(decoder := d);
    match r
    case NoSpace => (t, Error)
    case Text => (Type(t, c), NoEvent)
    case Nothing => Act(t)
  }

  // ----- What the editor sends back -----

  /** AT_CMD_CONF_CMD_MODE_PROMPT_CHAR */
  const PROMPT: byte := 0x3E

  /** `clearLine` without the prompt: erase the whole line (EL 2 of ECMA-48), go to its start. */
  const CLEAR_LINE: seq<byte> := [ESCAPE, LEFT_BRACKET, 0x32, 0x4B, RETURN, NUL]

  /** Cursor left, erase to the end of the line. */
  const RUB_OUT: seq<byte> := [ESCAPE, LEFT_BRACKET, 0x44, ESCAPE, LEFT_BRACKET, 0x4B]

  function Prompt(echo: bool): seq<byte> { if echo then [PROMPT] else [] }

  function Redrawn(line: Line): seq<byte> { CLEAR_LINE + [PROMPT] + line }

  /** What is sent for a byte that stores nothing. */
  function ActEcho(s: Screen): seq<byte>
    requires -1 <= s.read < |s.lines|
  {
    if !s.echo then []
    else match s.decoder.decision
      case ControlBs => if s.pos > 0 then RUB_OUT else []
      case ControlLf => if s.text == [] then [LINE_FEED, PROMPT] else [LINE_FEED]
      case ControlCr => [RETURN]
      case KeyUp => if Older(s) >= 0 then Redrawn(s.lines[Older(s)]) else []
      case KeyDown => if s.read >= 0 then Redrawn(s.lines[Younger(s)]) else []
      case _ => []
  }

  /** What is sent for one byte. */
  function StepEcho(s: Screen, c: byte): seq<byte>
    requires s.pos <= |s.text| && s.pos <= COMMAND_SIZE && Bounded(s.decoder) && -1 <= s.read < |s.lines|
  {
    var (d, r) := DecodeByte(s.decoder, c, COMMAND_SIZE - s.pos);
    match r
    case NoSpace => []
    case Text => if s.echo then [c] else []
    case Nothing => ActEcho(s.(decoder := d))
  }

  lemma RememberLines(lines: seq<Line>, line: Line)
    requires Fits(lines) && 0 < |line| < COMMAND_SIZE
    requires forall k :: 0 <= k < |lines| ==> 0 < |lines[k]| < COMMAND_SIZE
    ensures Fits(Remember(lines, line))
    ensures forall k :: 0 <= k < |Remember(lines, line)| ==> 0 < |Remember(lines, line)[k]| < COMMAND_SIZE
  {
    hide Total, Evict;
    EvictLeaves(lines, |line|);
    MoreFits(Evict(lines, |line|), line);
  }

  lemma ActKeepsEditing(s: Screen)
    requires Editing(s) && s.pos < COMMAND_SIZE
    ensures Editing(Act(s).0) && |s.text| < COMMAND_SIZE && Act(s).1 != Error
    ensures Act(s).1 == EndOfLine ==> s.text != [] && Act(s).0.text == s.text && Act(s).0.lines == Remember(s.lines, s.text)
    ensures Act(s).1 != EndOfLine ==> Act(s).0.lines == s.lines
  {
    hide Remember, Fits;
    if 0 < |s.text| {
      RememberLines(s.lines, s.text);
    }
  }

  lemma TypeKeepsEditing(s: Screen, d: Decoder, c: byte)
    requires Editing(s) && Bounded(d)
    ensures Editing(s.(decoder := d)) && (s.pos < COMMAND_SIZE ==> Editing(Type(s.(decoder := d), c)))
  {
    hide Fits, Bounded;
  }

  /** Every byte keeps the editor's bounds. A line feed is only acted on when the line, and its
      terminator, are inside the buffer. */
  lemma StepKeepsEditing(s: Screen, c: byte)
    requires Editing(s)
    ensures Editing(Step(s, c).0)
    ensures Step(s, c).1 == EndOfLine ==> 0 < |s.text| < COMMAND_SIZE && Step(s, c).0.text == s.text
                                          && Step(s, c).0.lines == Remember(s.lines, s.text)
    ensures Step(s, c).1 != EndOfLine ==> Step(s, c).0.lines == s.lines
  {
    EditingBounds(s);
    hide DecodeByte, Remember, Act, Editing;
    DecodedSpace(s.decoder, c, COMMAND_SIZE - s.pos);
    var (d, r) := DecodeByte(s.decoder, c, COMMAND_SIZE - s.pos);
    TypeKeepsEditing(s, d, c);
    if r == Nothing {
      ActKeepsEditing(s.(decoder := d));
    }
  }

  lemma EditingBounds(s: Screen)
    requires Editing(s)
    ensures s.pos <= |s.text| && s.pos <= COMMAND_SIZE && Bounded(s.decoder) && -1 <= s.read < |s.lines|
  {
  }

  lemma RecallKeepsEditing(s: Screen, read: int)
    requires Editing(s) && -1 <= read < |s.lines|
    ensures Editing(Recall(s, read))
  {
  }

  lemma DecodedSpace(d: Decoder, c: byte, maxSpace: nat)
    requires Bounded(d)
    ensures Bounded(DecodeByte(d, c, maxSpace).0)
    ensures DecodeByte(d, c, maxSpace).1 == NoSpace <==> maxSpace == 0
    ensures DecodeByte(d, c, maxSpace).0.decision == ControlEsc ==> DecodeByte(d, c, maxSpace).1 == Nothing
  {
    hide Escape;
  }

  // ----- Runs -----

  /** What happens to the editor: bytes arrive, the caller starts a new line, sets the echo,
      or (parsing the command in place) rewrites the bytes of the line. */
  datatype Input = Typed(c: byte) | NewLine | SetEcho(on: bool) | Rewritten(text: Line)

  function Blank(echo: bool, decoder: Decoder, lines: seq<Line>): Screen {
    Screen([], 0, decoder.(decision := Init, state := Ground), lines, -1, echo)
  }

  lemma BlankIsEditing(s: Screen)
    requires Editing(s)
    ensures Editing(Blank(s.echo, s.decoder, s.lines))
    ensures s.pos <= |s.text| && s.pos <= COMMAND_SIZE && Bounded(s.decoder) && -1 <= s.read < |s.lines|
  {
  }

  function After(s: Screen, i: Input): Screen
    requires s.pos <= |s.text| && s.pos <= COMMAND_SIZE && Bounded(s.decoder) && -1 <= s.read < |s.lines|
  {
    match i
    case Typed(c) => Step(s, c).0
    case NewLine => Blank(s.echo, s.decoder, s.lines)
    case SetEcho(on) => s.(echo := on)
    case Rewritten(text) => if |text| == |s.text| then s.(text := text) else s
  }

  /** The lines entered by one input: the command line, when the input ends it. */
  function Entered(s: Screen, i: Input): seq<Line>
    requires s.pos <= |s.text| && s.pos <= COMMAND_SIZE && Bounded(s.decoder) && -1 <= s.read < |s.lines|
  {
    if i.Typed? && Step(s, i.c).1 == EndOfLine then [s.text] else []
  }

  lemma AfterKeepsEditing(s: Screen, i: Input)
    requires Editing(s)
    ensures Editing(After(s, i))
    ensures After(s, i).lines == if Entered(s, i) == [] then s.lines else Remember(s.lines, s.text)
    ensures Entered(s, i) != [] ==> Entered(s, i) == [s.text] && 0 < |s.text| < COMMAND_SIZE
  {
    hide Step, Remember;
    if i.Typed? {
      StepKeepsEditing(s, i.c);
    }
  }

  datatype Run = Run(screen: Screen, entered: seq<Line>)

  /** The screen after a run that starts with an empty history, and the lines entered on the way. */
  ghost function RunOf(first: Screen, inputs: seq<Input>): (r: Run)
    requires Editing(first)
    ensures Editing(r.screen)
  {
    if inputs == [] then Run(first, [])
    else
      var r := RunOf(first, inputs[..|inputs| - 1]);
      var i := inputs[|inputs| - 1];
      AfterKeepsEditing(r.screen, i);
      Run(After(r.screen, i), r.entered + Entered(r.screen, i))
  }

  /** In every run, the history is exactly the longest suffix of the lines entered that has
      at most 8 lines and 2048 bytes; every line entered was shorter than the command buffer. */
  lemma {:induction false} RunHistory(first: Screen, inputs: seq<Input>)
    requires Editing(first) && first.lines == []
    ensures var r := RunOf(first, inputs);
            && r.screen.lines == HistoryOf(r.entered)
            && IsLongestFit(r.screen.lines, r.entered)
            && forall k :: 0 <= k < |r.entered| ==> 0 < |r.entered[k]| < COMMAND_SIZE
  {
    hide After, Entered, Remember, IsLongestFit, Editing;
    if inputs != [] {
      var r, i := RunOf(first, inputs[..|inputs| - 1]), inputs[|inputs| - 1];
      RunHistory(first, inputs[..|inputs| - 1]);
      AfterKeepsEditing(r.screen, i);
      assert r.entered + [] == r.entered;
      var e := r.entered + [r.screen.text];
      assert e[..|e| - 1] == r.entered;
    }
    var entered := RunOf(first, inputs).entered;
    HistoryIsLongestSuffix(entered);
    AllNonEmpty(entered);
  }

  lemma {:induction false} AllNonEmpty(entered: seq<Line>)
    requires forall k :: 0 <= k < |entered| ==> entered[k] != []
    ensures NonEmpty(entered) == entered
  {
    if entered != [] {
      AllNonEmpty(entered[..|entered| - 1]);
    }
  }

  // ----- Runs of bytes -----

  /** The bytes of one call are decoded until one of them ends the line or does not fit. */
  function Steps(s: Screen, bytes: seq<byte>): (r: (Screen, Event))
    requires Editing(s)
    decreases |bytes|
  {
    if bytes == [] then (s, NoEvent)
    else
      StepKeepsEditing(s, bytes[0]);
      var (t, e) := Step(s, bytes[0]);
      if e != NoEvent then (t, e) else Steps(t, bytes[1..])
  }

  /** What is sent for the bytes of one call. */
  function StepsEcho(s: Screen, bytes: seq<byte>): seq<byte>
    requires Editing(s)
    decreases |bytes|
  {
    if bytes == [] then []
    else
      StepKeepsEditing(s, bytes[0]);
      var (t, e) := Step(s, bytes[0]);
      StepEcho(s, bytes[0]) + if e != NoEvent then [] else StepsEcho(t, bytes[1..])
  }

  lemma {:induction false} StepsKeepEditing(s: Screen, bytes: seq<byte>)
    requires Editing(s)
    ensures Editing(Steps(s, bytes).0)
    decreases |bytes|
  {
    hide Step;
    if bytes != [] {
      StepKeepsEditing(s, bytes[0]);
      if Step(s, bytes[0]).1 == NoEvent {
        StepsKeepEditing(Step(s, bytes[0]).0, bytes[1..]);
      }
    }
  }

  lemma {:induction false} StepsAppend(s: Screen, a: seq<byte>, b: seq<byte>)
    requires Editing(s)
    ensures Editing(Steps(s, a).0)
    ensures Steps(s, a + b) == if Steps(s, a).1 == NoEvent then Steps(Steps(s, a).0, b) else Steps(s, a)
    decreases |a|
  {
    StepsKeepEditing(s, a);
    hide Step, Editing;
    if a == [] {
      assert a + b == b;
    } else {
      assert (a + b)[0] == a[0] && (a + b)[1..] == a[1..] + b;
      StepKeepsEditing(s, a[0]);
      if Step(s, a[0]).1 == NoEvent {
        StepsAppend(Step(s, a[0]).0, a[1..], b);
      }
    }
  }

  /** Typing at the end of the line appends what is typed. */
  lemma {:induction false} TypingAppends(s: Screen, t: seq<byte>)
    requires Editing(s) && s.decoder.state == Ground && s.pos == |s.text|
    requires AllDisplayable(t) && |s.text| + |t| <= COMMAND_SIZE
    ensures var (r, e) := Steps(s, t);
            && e == NoEvent && r.text == s.text + t && r.pos == |r.text|
            && r.lines == s.lines && r.read == s.read && r.echo == s.echo && r.decoder.state == Ground
    decreases |t|
  {
    if t == [] {
      assert s.text + t == s.text;
    } else {
      StepKeepsEditing(s, t[0]);
      assert IsDisplayable(t[0]);
      var r := Step(s, t[0]).0;
      assert r.text == s.text + [t[0]];
      assert s.text + t == r.text + t[1..];
      hide Step, Editing;
      TypingAppends(r, t[1..]);
    }
  }

  /** On a new line, typing a line and a line feed enters that line and stores it in the history. */
  lemma TypedLineIsEntered(s: Screen, line: Line)
    requires Editing(s) && s.decoder.state == Ground && s.text == [] && s.pos == 0
    requires AllDisplayable(line) && 0 < |line| < COMMAND_SIZE
    ensures var (r, e) := Steps(s, line + [LINE_FEED]);
            e == EndOfLine && r.text == line && r.lines == Remember(s.lines, line)
  {
    TypingAppends(s, line);
    assert s.text + line == line;
    StepsAppend(s, line, [LINE_FEED]);
    var r := Steps(s, line).0;
    hide Steps, Remember;
    LineFeedEnters(r);
  }

  lemma LineFeedEnters(s: Screen)
    requires Editing(s) && s.decoder.state == Ground && 0 < |s.text| < COMMAND_SIZE
    ensures var (r, e) := Steps(s, [LINE_FEED]);
            e == EndOfLine && r.text == s.text && r.lines == Remember(s.lines, s.text)
  {
    hide Remember;
    assert PlainDecision(LINE_FEED) == ControlLf;
    var (d, r) := DecodeByte(s.decoder, LINE_FEED, COMMAND_SIZE - s.pos);
    assert r == Nothing && d.decision == ControlLf;
  }

  // ----- Control sequences -----

  /** The parameters a control sequence may have to be acted on: no colon,
      and the private markers `<=>?` only in front. */
  predicate Legal(params: seq<byte>) {
    forall i :: 0 <= i < |params| ==> params[i] != COLON && (i > 0 ==> params[i] < 0x3C)
  }

  /** The decoder inside a sequence: `s` is its state, and it holds what a screen needs. */
  ghost predicate InSequence(r: (Screen, Event), s: Screen, state: EscapeState) {
    && r.1 == NoEvent && r.0 == s.(decoder := r.0.decoder)
    && Bounded(r.0.decoder) && r.0.decoder.state == state && !r.0.decoder.dispatched
  }

  lemma StepInSequence(s: Screen, c: byte)
    requires Editing(s) && s.pos < COMMAND_SIZE && s.decoder.state !in {Ground, Escaped, Ss3} && !s.decoder.dispatched
    requires IsIntermediate(c) || IsParameter(c)
    ensures InSequence(Step(s, c), s, NextState(s.decoder.state, c)) && NextState(s.decoder.state, c) != Ground
  {
  }

  /** The state after parameter bytes. */
  function ParamState(s: EscapeState, params: seq<byte>): EscapeState
    decreases |params|
  {
    if params == [] then s else ParamState(NextState(s, params[0]), params[1..])
  }

  lemma {:induction false} ParamsStayInside(s: Screen, params: seq<byte>)
    requires Editing(s) && s.pos < COMMAND_SIZE && s.decoder.state !in {Ground, Escaped, Ss3} && !s.decoder.dispatched
    requires forall i :: 0 <= i < |params| ==> IsIntermediate(params[i]) || IsParameter(params[i])
    ensures InSequence(Steps(s, params), s, ParamState(s.decoder.state, params))
    ensures ParamState(s.decoder.state, params) !in {Ground, Escaped, Ss3}
    decreases |params|
  {
    hide Step;
    if params != [] {
      StepInSequence(s, params[0]);
      StepKeepsEditing(s, params[0]);
      assert NextState(s.decoder.state, params[0]) !in {Ground, Escaped, Ss3};
      ParamsStayInside(Step(s, params[0]).0, params[1..]);
    }
  }

  lemma {:induction false} ParamStateAppend(s: EscapeState, a: seq<byte>, b: seq<byte>)
    ensures ParamState(s, a + b) == ParamState(ParamState(s, a), b)
    decreases |a|
  {
    hide NextState;
    if a == [] {
      assert a + b == b;
    } else {
      assert (a + b)[0] == a[0] && (a + b)[1..] == a[1..] + b;
      ParamStateAppend(NextState(s, a[0]), a[1..], b);
    }
  }

  lemma {:induction false} Parameters(s: EscapeState, params: seq<byte>)
    requires s in {CsiParam, CsiIgnore} && forall i :: 0 <= i < |params| ==> IsParameter(params[i])
    ensures ParamState(s, params) ==
      if s == CsiParam && forall i :: 0 <= i < |params| ==> params[i] != COLON && params[i] < 0x3C
      then CsiParam else CsiIgnore
    decreases |params|
  {
    if params != [] {
      Parameters(NextState(s, params[0]), params[1..]);
      assert forall i :: 0 <= i < |params[1..]| ==> params[1..][i] == params[i + 1];
      assert forall i :: 0 < i < |params| ==> params[i] == params[1..][i - 1];
    }
  }

  lemma FirstParameters(params: seq<byte>)
    requires forall i :: 0 <= i < |params| ==> IsParameter(params[i])
    ensures ParamState(CsiEntry, params) ==
      if params == [] then CsiEntry else if Legal(params) then CsiParam else CsiIgnore
  {
    if params != [] {
      var rest := params[1..];
      Parameters(NextState(CsiEntry, params[0]), rest);
      assert forall i :: 0 <= i < |rest| ==> rest[i] == params[i + 1];
      assert forall i :: 0 < i < |params| ==> params[i] == rest[i - 1];
    }
  }

  lemma {:induction false} Intermediates(s: EscapeState, inters: seq<byte>)
    requires s in {CsiEntry, CsiParam, CsiInter, CsiIgnore} && forall i :: 0 <= i < |inters| ==> IsIntermediate(inters[i])
    ensures ParamState(s, inters) == if inters == [] then s else if s == CsiIgnore then CsiIgnore else CsiInter
    decreases |inters|
  {
    if inters != [] {
      Intermediates(NextState(s, inters[0]), inters[1..]);
    }
  }

  const INTRODUCER: seq<byte> := [ESCAPE, LEFT_BRACKET]

  lemma EscapeStarts(s: Screen)
    requires Editing(s) && s.decoder.state == Ground && s.pos < COMMAND_SIZE
    ensures var (r, e) := Step(s, ESCAPE);
            && e == NoEvent && Bounded(r.decoder) && r.decoder.state == Escaped && !r.decoder.dispatched
            && r == s.(decoder := r.decoder)
  {
    assert PlainDecision(ESCAPE) == ControlEsc;
  }

  lemma BracketFollows(s: Screen)
    requires Editing(s) && s.decoder.state == Escaped && s.pos < COMMAND_SIZE
    ensures InSequence(Step(s, LEFT_BRACKET), s, CsiEntry)
  {
  }

  lemma SequenceStarts(s: Screen)
    requires Editing(s) && s.decoder.state == Ground && s.pos < COMMAND_SIZE
    ensures InSequence(Steps(s, INTRODUCER), s, CsiEntry)
  {
    EscapeStarts(s);
    StepKeepsEditing(s, ESCAPE);
    var r := Step(s, ESCAPE).0;
    BracketFollows(r);
    OneStep(r, LEFT_BRACKET);
    hide Step, Editing;
    assert INTRODUCER[1..] == [LEFT_BRACKET];
  }

  /** What a key does, everything but the decoder. */
  function Pressed(s: Screen, final: byte): Screen
    requires s.pos <= |s.text| && -1 <= s.read < |s.lines|
  {
    if !s.echo then s
    else if final == 0x41 then Recall(s, Older(s))
    else if final == 0x42 && s.read >= 0 then Recall(s, Younger(s))
    else s
  }

  lemma FinalDecodes(d: Decoder, final: byte, maxSpace: nat)
    requires Bounded(d) && maxSpace > 0 && IsFinal(final) && !d.dispatched
    requires d.state in {CsiEntry, CsiParam, CsiInter, CsiIgnore}
    ensures var (r, out) := DecodeByte(d, final, maxSpace);
            && out == Nothing && r.state == Ground && Bounded(r)
            && (d.state == CsiIgnore ==> r.decision in {Unknown, EscapeSs3})
            && (d.state != CsiIgnore ==>
                  (r.decision == KeyUp <==> final == 0x41) && (r.decision == KeyDown <==> final == 0x42)
                  && r.decision in {EscapeCsi, KeyUp, KeyDown, F1})
  {
  }

  lemma SequenceEnds(s: Screen, final: byte)
    requires Editing(s) && s.pos < COMMAND_SIZE && IsFinal(final) && !s.decoder.dispatched
    requires s.decoder.state in {CsiEntry, CsiParam, CsiInter, CsiIgnore}
    ensures var (r, e) := Steps(s, [final]);
            && e == NoEvent && r.decoder.state == Ground && Bounded(r.decoder)
            && r.(decoder := s.decoder) == if s.decoder.state == CsiIgnore then s else Pressed(s, final)
  {
    hide DecodeByte, Bounded, Steps, Act, Pressed;
    FinalDecodes(s.decoder, final, COMMAND_SIZE - s.pos);
    OneStep(s, final);
    KeyActs(s, DecodeByte(s.decoder, final, COMMAND_SIZE - s.pos).0, final);
  }

  lemma KeyActs(s: Screen, d: Decoder, final: byte)
    requires s.pos <= |s.text| && -1 <= s.read < |s.lines|
    ensures var (r, e) := Act(s.(decoder := d));
            && (d.decision in {Unknown, EscapeSs3} ==> e == NoEvent && r == s.(decoder := d))
            && ((d.decision == KeyUp <==> final == 0x41) && (d.decision == KeyDown <==> final == 0x42)
                && d.decision in {EscapeCsi, KeyUp, KeyDown, F1} ==>
                  e == NoEvent && r == Pressed(s, final).(decoder := d))
    ensures Pressed(s, final).decoder == s.decoder
  {
    hide Remember;
  }

  lemma OneStep(s: Screen, c: byte)
    requires Editing(s)
    ensures Steps(s, [c]) == Step(s, c)
  {
    StepKeepsEditing(s, c);
    hide Step;
    assert [c][1..] == [];
  }

  /** A control sequence of any length (section 5.4 of ECMA-48): `ESC [`, parameter bytes, intermediate bytes,
      a final byte. None of it reaches the command line; the decoder is inside the sequence until
      the final byte and back at ground with it, its buffers never overrun; and the sequence is acted
      on, as a key, exactly when its parameters are legal. */
  lemma ControlSequence(s: Screen, params: seq<byte>, inters: seq<byte>, final: byte)
    requires Editing(s) && s.decoder.state == Ground && s.pos < COMMAND_SIZE
    requires forall i :: 0 <= i < |params| ==> IsParameter(params[i])
    requires forall i :: 0 <= i < |inters| ==> IsIntermediate(inters[i])
    requires IsFinal(final)
    ensures forall n :: 0 <= n <= |params + inters| ==> MidSequence(s, (params + inters)[..n])
    ensures var (r, e) := Steps(s, INTRODUCER + (params + inters + [final]));
            && e == NoEvent && r.decoder.state == Ground && Bounded(r.decoder)
            && r.(decoder := s.decoder) == if Legal(params) then Pressed(s, final) else s
  {
    hide Step, Steps, Pressed, Legal, NextState;
    forall n | 0 <= n <= |params + inters|
      ensures MidSequence(s, (params + inters)[..n])
    {
      BodyStaysInside(s, (params + inters)[..n]);
    }
    SequenceActs(s, params, inters, final);
  }

  lemma SequenceActs(s: Screen, params: seq<byte>, inters: seq<byte>, final: byte)
    requires Editing(s) && s.decoder.state == Ground && s.pos < COMMAND_SIZE
    requires forall i :: 0 <= i < |params| ==> IsParameter(params[i])
    requires forall i :: 0 <= i < |inters| ==> IsIntermediate(inters[i])
    requires IsFinal(final)
    ensures var (r, e) := Steps(s, INTRODUCER + (params + inters + [final]));
            && e == NoEvent && r.decoder.state == Ground && Bounded(r.decoder)
            && r.(decoder := s.decoder) == if Legal(params) then Pressed(s, final) else s
  {
    hide Step, Steps, Pressed, Legal, NextState;
    var body := params + inters;
    BodyStaysInside(s, body);
    BodyState(params, inters);
    var mid := Steps(s, INTRODUCER + body).0;
    StepsKeepEditing(s, INTRODUCER + body);
    SequenceEnds(mid, final);
    assert INTRODUCER + (body + [final]) == INTRODUCER + body + [final];
    StepsAppend(s, INTRODUCER + body, [final]);
    PressedIgnoresDecoder(s, mid.decoder, final);
  }

  /** After `ESC [` and `body` the sequence is not over, and the screen is otherwise as it was. */
  ghost predicate MidSequence(s: Screen, body: seq<byte>)
    requires Editing(s)
  {
    var state := ParamState(CsiEntry, body);
    state !in {Ground, Escaped, Ss3} && InSequence(Steps(s, INTRODUCER + body), s, state)
  }

  lemma BodyStaysInside(s: Screen, body: seq<byte>)
    requires Editing(s) && s.decoder.state == Ground && s.pos < COMMAND_SIZE
    requires forall i :: 0 <= i < |body| ==> IsIntermediate(body[i]) || IsParameter(body[i])
    ensures MidSequence(s, body)
  {
    hide Step, NextState;
    SequenceStarts(s);
    StepsKeepEditing(s, INTRODUCER);
    var inside := Steps(s, INTRODUCER).0;
    ParamsStayInside(inside, body);
    StepsAppend(s, INTRODUCER, body);
  }

  lemma BodyState(params: seq<byte>, inters: seq<byte>)
    requires forall i :: 0 <= i < |params| ==> IsParameter(params[i])
    requires forall i :: 0 <= i < |inters| ==> IsIntermediate(inters[i])
    ensures ParamState(CsiEntry, params + inters) in {CsiEntry, CsiParam, CsiInter, CsiIgnore}
    ensures ParamState(CsiEntry, params + inters) == CsiIgnore <==> !Legal(params)
  {
    hide NextState;
    ParamStateAppend(CsiEntry, params, inters);
    FirstParameters(params);
    Intermediates(ParamState(CsiEntry, params), inters);
  }

  lemma PressedIgnoresDecoder(s: Screen, d: Decoder, final: byte)
    requires s.pos <= |s.text| && -1 <= s.read < |s.lines|
    ensures Pressed(s.(decoder := d), final).(decoder := s.decoder) == Pressed(s, final)
  {
  }

  // ----- The key that leans on an earlier sequence -----

  /** The decoder after these bytes, with room for a byte in the line. */
  function Decoding(d: Decoder, bytes: seq<byte>, maxSpace: nat): (r: Decoder)
    requires Bounded(d)
    ensures Bounded(r)
  {
    if bytes == [] then d
    else DecodeByte(Decoding(d, bytes[..|bytes| - 1], maxSpace), bytes[|bytes| - 1], maxSpace).0
  }

  lemma DecodingMore(d: Decoder, bytes: seq<byte>, c: byte, maxSpace: nat)
    requires Bounded(d)
    ensures Decoding(d, bytes + [c], maxSpace) == DecodeByte(Decoding(d, bytes, maxSpace), c, maxSpace).0
  {
    assert (bytes + [c])[..|bytes|] == bytes;
  }

  /** Inside a sequence, with this in the parameter buffer. */
  ghost predicate Collecting(d: Decoder, state: EscapeState, param: seq<byte>, length: nat) {
    Bounded(d) && d.state == state && d.param == param && d.paramLength == length && !d.dispatched
  }

  lemma SequenceBytes(d: Decoder, c: byte, maxSpace: nat)
    requires Bounded(d) && maxSpace > 0
    ensures var r := DecodeByte(d, c, maxSpace).0;
            && (d.state == Ground && c == ESCAPE ==> Collecting(r, Escaped, d.param, 0))
            && (d.state == Escaped && !d.dispatched && c == LEFT_BRACKET ==> Collecting(r, CsiEntry, d.param, 0))
            && (Collecting(d, CsiEntry, d.param, 0) && IsDigit(c) ==> Collecting(r, CsiParam, d.param, 0))
            && (Collecting(d, CsiParam, d.param, 0) && IsDigit(c) ==> Collecting(r, CsiParam, d.param[0 := c], 1))
            && (d.state == CsiParam && IsFinal(c) ==>
                  && r.state == Ground && r.param == d.param
                  && (r.decision == F1 <==> c == 0x7E && d.param[0] == 0x31))
  {
  }

  /** `ESC [` and a digit: the digit goes to the other buffer, and what an earlier sequence has left in this one stays. */
  lemma FirstDigitDecodes(d: Decoder, a: byte, maxSpace: nat)
    requires Bounded(d) && d.state == Ground && maxSpace > 0 && IsDigit(a)
    ensures Collecting(Decoding(d, [ESCAPE, LEFT_BRACKET, a], maxSpace), CsiParam, d.param, 0)
  {
    hide DecodeByte, Decoding;
    NothingDecoded(d, maxSpace);
    DecodingMore(d, [], ESCAPE, maxSpace);
    DecodingMore(d, [ESCAPE], LEFT_BRACKET, maxSpace);
    DecodingMore(d, [ESCAPE, LEFT_BRACKET], a, maxSpace);
    assert [] + [ESCAPE] == [ESCAPE] && [ESCAPE] + [LEFT_BRACKET] == INTRODUCER;
    assert INTRODUCER + [a] == [ESCAPE, LEFT_BRACKET, a];
    SequenceBytes(d, ESCAPE, maxSpace);
    SequenceBytes(Decoding(d, [ESCAPE], maxSpace), LEFT_BRACKET, maxSpace);
    SequenceBytes(Decoding(d, INTRODUCER, maxSpace), a, maxSpace);
  }

  lemma NothingDecoded(d: Decoder, maxSpace: nat)
    requires Bounded(d)
    ensures Decoding(d, [], maxSpace) == d
  {
  }

  const F1_KEY: seq<byte> := [ESCAPE, LEFT_BRACKET, 0x31, 0x7E]

  /** `ESC [ 1 ~` is taken for the F1 key exactly when an earlier sequence has left a `1` in the parameter buffer. */
  lemma F1IsStale(d: Decoder, maxSpace: nat)
    requires Bounded(d) && d.state == Ground && maxSpace > 0
    ensures Decoding(d, F1_KEY, maxSpace).decision == F1 <==> d.param[0] == 0x31
  {
    hide DecodeByte, Decoding;
    FirstDigitDecodes(d, 0x31, maxSpace);
    var three := [ESCAPE, LEFT_BRACKET, 0x31];
    DecodingMore(d, three, 0x7E, maxSpace);
    SequenceBytes(Decoding(d, three, maxSpace), 0x7E, maxSpace);
    assert F1_KEY == three + [0x7E];
  }

  /** A sequence of two digits and a final byte leaves its second digit there. */
  lemma SecondDigitStays(d: Decoder, a: byte, b: byte, final: byte, maxSpace: nat)
    requires Bounded(d) && d.state == Ground && maxSpace > 0 && IsDigit(a) && IsDigit(b) && IsFinal(final)
    ensures var r := Decoding(d, [ESCAPE, LEFT_BRACKET, a, b, final], maxSpace); r.state == Ground && r.param[0] == b
  {
    hide DecodeByte, Decoding;
    FirstDigitDecodes(d, a, maxSpace);
    var three, four := [ESCAPE, LEFT_BRACKET, a], [ESCAPE, LEFT_BRACKET, a, b];
    DecodingMore(d, three, b, maxSpace);
    SequenceBytes(Decoding(d, three, maxSpace), b, maxSpace);
    assert three + [b] == four && four + [final] == [ESCAPE, LEFT_BRACKET, a, b, final];
    DecodingMore(d, four, final, maxSpace);
    SequenceBytes(Decoding(d, four, maxSpace), final, maxSpace);
  }

  // ----- Every stored line can be recalled -----

  const UP_KEY: seq<byte> := [ESCAPE, LEFT_BRACKET, 0x41]

  lemma UpKeyRecalls(s: Screen)
    requires Editing(s) && s.decoder.state == Ground && s.pos < COMMAND_SIZE && s.echo
    ensures var (r, e) := Steps(s, UP_KEY);
            e == NoEvent && r.decoder.state == Ground && r == Recall(s, Older(s)).(decoder := r.decoder)
  {
    hide Step, Steps, Recall, NextState;
    SequenceActs(s, [], [], 0x41);
    assert INTRODUCER + ([] + [] + [0x41]) == UP_KEY;
    var r := Steps(s, UP_KEY).0;
    assert r.(decoder := s.decoder) == Recall(s, Older(s));
    assert r == r.(decoder := s.decoder).(decoder := r.decoder);
  }

  const DOWN_KEY: seq<byte> := [ESCAPE, LEFT_BRACKET, 0x42]

  lemma DownKeyRecalls(s: Screen)
    requires Editing(s) && s.decoder.state == Ground && s.pos < COMMAND_SIZE && s.echo
    ensures var (r, e) := Steps(s, DOWN_KEY);
            && e == NoEvent && r.decoder.state == Ground
            && r == (if s.read < 0 then s else Recall(s, Younger(s))).(decoder := r.decoder)
  {
    hide Step, Steps, Recall, NextState;
    SequenceActs(s, [], [], 0x42);
    assert INTRODUCER + ([] + [] + [0x42]) == DOWN_KEY;
    var r := Steps(s, DOWN_KEY).0;
    assert r.(decoder := s.decoder) == if s.read < 0 then s else Recall(s, Younger(s));
    assert r == r.(decoder := s.decoder).(decoder := r.decoder);
  }

  /** Up keys and down keys, in the order pressed. */
  function Keys(ups: seq<bool>): seq<byte> {
    if ups == [] then [] else Keys(ups[..|ups| - 1]) + if ups[|ups| - 1] then UP_KEY else DOWN_KEY
  }

  /** Which of `n` lines they arrive at, from none: up goes to the last and then back, down forward, neither past an end. */
  function Walk(n: nat, ups: seq<bool>): int {
    if ups == [] then -1
    else
      var at := Walk(n, ups[..|ups| - 1]);
      if ups[|ups| - 1] then (if at < 0 then n - 1 else if at > 0 then at - 1 else 0)
      else if 0 <= at < n - 1 then at + 1
      else at
  }

  /** On a new line, any mixture of up and down keys shows the line the walk arrives at, byte for byte. */
  lemma {:induction false} KeysWalk(s: Screen, ups: seq<bool>)
    requires Editing(s) && s.decoder.state == Ground && s.pos < COMMAND_SIZE && s.echo && s.read == -1 && s.lines != []
    ensures var (r, e) := Steps(s, Keys(ups));
            && e == NoEvent && Editing(r) && r.decoder.state == Ground && r.pos < COMMAND_SIZE && r.echo
            && r.lines == s.lines && r.read == Walk(|s.lines|, ups)
            && (r.read >= 0 ==> r.text == s.lines[r.read] && r.pos == |r.text|)
            && (r.read < 0 ==> r.text == s.text)
    decreases |ups|
  {
    hide Step, Steps, NextState;
    StepsKeepEditing(s, Keys(ups));
    if ups == [] {
      NoSteps(s);
    } else {
      var before := ups[..|ups| - 1];
      KeysWalk(s, before);
      var r := Steps(s, Keys(before)).0;
      if ups[|ups| - 1] {
        StepsAppend(s, Keys(before), UP_KEY);
        UpKeyRecalls(r);
      } else {
        StepsAppend(s, Keys(before), DOWN_KEY);
        DownKeyRecalls(r);
      }
    }
  }

  /** Going up `a` times, which stops at the oldest line, and down `b` times arrives `b` lines below, at most at the last. */
  lemma {:induction false} DownUndoesUp(n: nat, a: nat, b: nat)
    requires a > 0 && n > 0
    ensures var top := if a <= n then n - a else 0;
            Walk(n, seq(a, i => true) + seq(b, i => false)) == if top + b < n then top + b else n - 1
    decreases a + b
  {
    var ups := seq(a, i => true) + seq(b, i => false);
    if b > 0 {
      assert ups[..a + b - 1] == seq(a, i => true) + seq(b - 1, i => false);
      DownUndoesUp(n, a, b - 1);
    } else if a > 1 {
      assert ups[..a - 1] == seq(a - 1, i => true) + seq(0, i => false);
      DownUndoesUp(n, a - 1, 0);
    } else {
      assert ups[..0] == [];
    }
  }

  lemma NoSteps(s: Screen)
    requires Editing(s)
    ensures Steps(s, []) == (s, NoEvent)
  {
  }
}
