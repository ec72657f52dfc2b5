/**
 The main loop around the terminal, `ATCMD_Update` in firmware/src/at_cmd_engine/at_cmds/at_cmds.c:
 one call decodes what has arrived up to the first event and acts on it; lines go to the command
 parser. What comes of a stream of bytes does not depend on how it is spread over the calls.
 */
module Console {
  import opened Bytes
  import opened History
  import opened HistoryRing
  import opened Ansi
  import opened Terminal
  import opened CommandDecoder

  /** The screen, and the lines handed to the command parser so far. */
  datatype Session = Session(screen: Screen, entered: seq<Line>)

  /** What running the last of these lines, after the others, makes of the echo (the ATE commands set it); every command ends
      before the next byte. */
  type Effect = (seq<Line>, bool) -> bool

  /** What the loop does about an event: an error or an entered line starts a new line. */
  function Outcome(effect: Effect, t: Screen, e: Event, entered: seq<Line>): Session
    requires Editing(t)
  {
    match e
    case NoEvent => Session(t, entered)
    case Error => Session(After(t, NewLine), entered)
    case EndOfLine =>
      var lines := entered + [t.text];
      Session(After(t.(echo := effect(lines, t.echo)), NewLine), lines)
  }

  function Served(effect: Effect, s: Session, i: Input): Session
    requires Editing(s.screen)
  {
    match i
    case Typed(c) =>
      StepKeepsEditing(s.screen, c);
      Outcome(effect, Step(s.screen, c).0, Step(s.screen, c).1, s.entered)
    case _ => Session(After(s.screen, i), s.entered)
  }

  lemma ServedKeepsEditing(effect: Effect, s: Session, i: Input)
    requires Editing(s.screen)
    ensures Editing(Served(effect, s, i).screen)
  {
    hide Step;
    match i
    case Typed(c) => StepKeepsEditing(s.screen, c);
    case _ => AfterKeepsEditing(s.screen, i);
  }

  ghost function ServedAll(effect: Effect, s: Session, inputs: seq<Input>): (r: Session)
    requires Editing(s.screen)
    ensures Editing(r.screen)
  {
    if inputs == [] then s
    else
      var r := ServedAll(effect, s, inputs[..|inputs| - 1]);
      ServedKeepsEditing(effect, r, inputs[|inputs| - 1]);
      Served(effect, r, inputs[|inputs| - 1])
  }

  lemma {:induction false} ServedConcat(effect: Effect, s: Session, a: seq<Input>, b: seq<Input>)
    requires Editing(s.screen)
    ensures ServedAll(effect, s, a + b) == ServedAll(effect, ServedAll(effect, s, a), b)
    decreases |b|
  {
    hide Served, Editing;
    if b == [] {
      assert a + b == a;
    } else {
      assert (a + b)[..|a + b| - 1] == a + b[..|b| - 1];
      ServedConcat(effect, s, a, b[..|b| - 1]);
    }
  }

  function Inputs(bytes: seq<byte>): seq<Input> {
    seq(|bytes|, i requires 0 <= i < |bytes| => Typed(bytes[i]))
  }

  /** The bytes among the inputs. */
  function BytesOf(inputs: seq<Input>): seq<byte> {
    if inputs == [] then []
    else BytesOf(inputs[..|inputs| - 1]) + match inputs[|inputs| - 1] { case Typed(c) => [c] case _ => [] }
  }

  lemma {:induction false} BytesOfMore(inputs: seq<Input>, bytes: seq<byte>)
    ensures BytesOf(inputs + Inputs(bytes)) == BytesOf(inputs) + bytes
    decreases |bytes|
  {
    if bytes == [] {
      assert inputs + Inputs(bytes) == inputs;
    } else {
      var all, n := inputs + Inputs(bytes), |bytes| - 1;
      assert all[..|all| - 1] == inputs + Inputs(bytes[..n]) && all[|all| - 1] == Typed(bytes[n]);
      BytesOfMore(inputs, bytes[..n]);
      assert bytes == bytes[..n] + [bytes[n]];
    }
  }

  /** Bytes that raise no event are the steps of the line editor. */
  lemma {:induction false} QuietBytes(effect: Effect, s: Session, bytes: seq<byte>)
    requires Editing(s.screen) && Steps(s.screen, bytes).1 == NoEvent
    ensures ServedAll(effect, s, Inputs(bytes)) == Session(Steps(s.screen, bytes).0, s.entered)
    decreases |bytes|
  {
    hide Step, Steps, Editing;
    if bytes == [] {
      NoBytes(s.screen);
    } else {
      var n := |bytes| - 1;
      var before, c := bytes[..n], bytes[n];
      assert bytes == before + [c];
      StepsAppend(s.screen, before, [c]);
      OneMore(s.screen, before, c);
      assert Inputs(bytes)[..n] == Inputs(before);
      QuietBytes(effect, s, before);
    }
  }

  /** A line given up, when an ESC has waited too long. */
  function Given(lapsed: bool): seq<Input> { if lapsed then [NewLine] else [] }

  lemma GivenServed(effect: Effect, start: Session, inputs: seq<Input>, lapsed: bool)
    requires Editing(start.screen)
    ensures var here := ServedAll(effect, start, inputs);
            && ServedAll(effect, start, inputs + Given(lapsed)) ==
               (if lapsed then Session(After(here.screen, NewLine), here.entered) else here)
            && BytesOf(inputs + Given(lapsed)) == BytesOf(inputs)
  {
    hide After, Editing;
    if lapsed {
      assert (inputs + [NewLine])[..|inputs|] == inputs;
    } else {
      assert inputs + [] == inputs;
    }
  }

  /** Bytes of which at most the last raises an event. */
  lemma BytesServed(effect: Effect, s: Session, bytes: seq<byte>)
    requires Editing(s.screen) && (bytes != [] ==> Steps(s.screen, bytes[..|bytes| - 1]).1 == NoEvent)
    ensures var (t, e) := Steps(s.screen, bytes);
            Editing(t) && ServedAll(effect, s, Inputs(bytes)) == Outcome(effect, t, e, s.entered)
  {
    hide Step, Steps, After, Editing, Outcome;
    StepsKeepEditing(s.screen, bytes);
    if bytes == [] {
      NoBytes(s.screen);
      NothingServed(effect, s);
    } else {
      var n := |bytes| - 1;
      assert bytes == bytes[..n] + [bytes[n]];
      OneMore(s.screen, bytes[..n], bytes[n]);
      QuietBytes(effect, s, bytes[..n]);
      assert Inputs(bytes)[..n] == Inputs(bytes[..n]);
    }
  }

  lemma NothingServed(effect: Effect, s: Session)
    requires Editing(s.screen)
    ensures ServedAll(effect, s, Inputs([])) == s == Outcome(effect, s.screen, NoEvent, s.entered)
  {
  }

  /** One call of the main loop: a line may be given up first, then bytes are taken up to an event. */
  lemma CallServed(effect: Effect, start: Session, inputs: seq<Input>, lapsed: bool, t: Screen, bytes: seq<byte>)
    requires Editing(start.screen) && Editing(t)
    requires var here := ServedAll(effect, start, inputs).screen; t == if lapsed then After(here, NewLine) else here
    requires bytes != [] ==> Steps(t, bytes[..|bytes| - 1]).1 == NoEvent
    ensures var (u, e) := Steps(t, bytes);
            var all := inputs + Given(lapsed) + Inputs(bytes);
            && Editing(u) && ServedAll(effect, start, all) == Outcome(effect, u, e, ServedAll(effect, start, inputs).entered)
            && BytesOf(all) == BytesOf(inputs) + bytes
  {
    hide Steps, After, Editing, Outcome, ServedAll, Given, Inputs, BytesOf;
    GivenServed(effect, start, inputs, lapsed);
    var here := ServedAll(effect, start, inputs + Given(lapsed));
    BytesServed(effect, here, bytes);
    ServedConcat(effect, start, inputs + Given(lapsed), Inputs(bytes));
    BytesOfMore(inputs + Given(lapsed), bytes);
  }

  // ----- Whole streams -----

  /** A screen on which nothing has been typed yet. */
  ghost predicate OnNewLine(s: Screen) {
    Editing(s) && s.decoder.state == Ground && s.text == [] && s.pos == 0
  }

  /** What ends a typed line: line feed, or return and line feed. */
  function Ending(crlf: bool): seq<byte> { if crlf then [RETURN, LINE_FEED] else [LINE_FEED] }

  lemma ReturnStep(s: Screen)
    requires Editing(s) && s.decoder.state == Ground && s.pos < COMMAND_SIZE
    ensures var (t, e) := Steps(s, [RETURN]);
            e == NoEvent && Editing(t) && t.decoder.state == Ground && t.text == s.text && t.lines == s.lines && t.echo == s.echo
  {
    assert PlainDecision(RETURN) == ControlCr;
    StepKeepsEditing(s, RETURN);
    OneStep(s, RETURN);
  }

  lemma EndedLine(s: Screen, line: Line, crlf: bool)
    requires OnNewLine(s) && AllDisplayable(line) && 0 < |line| < COMMAND_SIZE
    ensures var bytes := line + Ending(crlf);
            var (t, e) := Steps(s, bytes);
            && Steps(s, bytes[..|bytes| - 1]).1 == NoEvent
            && e == EndOfLine && Editing(t) && t.text == line && t.lines == Remember(s.lines, line)
  {
    hide Step, Remember;
    TypingAppends(s, line);
    StepsKeepEditing(s, line);
    assert s.text + line == line;
    var bytes := line + Ending(crlf);
    var before := bytes[..|bytes| - 1];
    if crlf {
      ReturnStep(Steps(s, line).0);
      StepsAppend(s, line, [RETURN]);
      assert before == line + [RETURN];
    } else {
      assert before == line;
    }
    LineFeedEnters(Steps(s, before).0);
    StepsAppend(s, before, [LINE_FEED]);
    assert bytes == before + [LINE_FEED];
    StepsKeepEditing(s, bytes);
  }

  lemma LineServed(effect: Effect, s: Session, line: Line, crlf: bool)
    requires OnNewLine(s.screen) && AllDisplayable(line) && 0 < |line| < COMMAND_SIZE
    ensures var r := ServedAll(effect, s, Inputs(line + Ending(crlf)));
            OnNewLine(r.screen) && r.entered == s.entered + [line] && r.screen.lines == Remember(s.screen.lines, line)
  {
    hide Steps, Remember, Inputs, ServedAll;
    EndedLine(s.screen, line, crlf);
    BytesServed(effect, s, line + Ending(crlf));
    var t := Steps(s.screen, line + Ending(crlf)).0;
    AfterKeepsEditing(t.(echo := effect(s.entered + [line], t.echo)), NewLine);
  }

  /** Lines as they are typed. */
  function TypedLines(lines: seq<Line>, crlf: bool): seq<byte> {
    if lines == [] then [] else TypedLines(lines[..|lines| - 1], crlf) + (lines[|lines| - 1] + Ending(crlf))
  }

  lemma MoreBytes(effect: Effect, s: Session, a: seq<byte>, b: seq<byte>)
    requires Editing(s.screen)
    ensures ServedAll(effect, s, Inputs(a + b)) == ServedAll(effect, ServedAll(effect, s, Inputs(a)), Inputs(b))
  {
    hide ServedAll, Editing;
    assert Inputs(a) + Inputs(b) == Inputs(a + b);
    ServedConcat(effect, s, Inputs(a), Inputs(b));
  }

  lemma HistoryMore(entered: seq<Line>, line: Line)
    requires line != []
    ensures HistoryOf(entered + [line]) == Remember(HistoryOf(entered), line)
  {
    assert (entered + [line])[..|entered|] == entered;
  }

  /** From `s` to `r` exactly these lines have been entered, and the history remembers. */
  ghost predicate HasEntered(s: Session, lines: seq<Line>, r: Session) {
    OnNewLine(r.screen) && r.entered == s.entered + lines && r.screen.lines == HistoryOf(r.entered)
  }

  lemma OneMoreLine(effect: Effect, s: Session, lines: seq<Line>, line: Line, r: Session, crlf: bool)
    requires HasEntered(s, lines, r) && AllDisplayable(line) && 0 < |line| < COMMAND_SIZE
    ensures Editing(r.screen) && HasEntered(s, lines + [line], ServedAll(effect, r, Inputs(line + Ending(crlf))))
  {
    hide AllDisplayable, Remember, HistoryOf, ServedAll, Inputs, Editing;
    LineServed(effect, r, line, crlf);
    HistoryMore(r.entered, line);
    assert s.entered + (lines + [line]) == r.entered + [line];
  }

  /** Whatever lines are typed, one after the other, exactly they are handed to the command parser, whatever the commands do
      to the echo; and the history is what remembering them gives. */
  lemma {:induction false} LinesAreEntered(effect: Effect, s: Session, lines: seq<Line>, crlf: bool)
    requires OnNewLine(s.screen) && s.screen.lines == HistoryOf(s.entered)
    requires forall i | 0 <= i < |lines| :: AllDisplayable(lines[i]) && 0 < |lines[i]| < COMMAND_SIZE
    ensures HasEntered(s, lines, ServedAll(effect, s, Inputs(TypedLines(lines, crlf))))
    decreases |lines|
  {
    hide OnNewLine, AllDisplayable, HistoryOf, ServedAll, Inputs, Editing;
    OnNewLineIsEditing(s.screen);
    if lines == [] {
      assert s.entered + [] == s.entered;
      NothingServed(effect, s);
    } else {
      hide HasEntered;
      var n := |lines| - 1;
      var before := TypedLines(lines[..n], crlf);
      LinesAreEntered(effect, s, lines[..n], crlf);
      OneMoreLine(effect, s, lines[..n], lines[n], ServedAll(effect, s, Inputs(before)), crlf);
      MoreBytes(effect, s, before, lines[n] + Ending(crlf));
      assert lines[..n] + [lines[n]] == lines;
    }
  }

  lemma OnNewLineIsEditing(s: Screen)
    requires OnNewLine(s)
    ensures Editing(s)
  {
  }

  /** In every run of the main loop the history is the longest suffix of the lines entered that fits. */
  lemma {:induction false} HistoryServed(effect: Effect, s: Session, inputs: seq<Input>)
    requires Editing(s.screen) && s.screen.lines == HistoryOf(s.entered) && EachEntered(s.entered)
    ensures var r := ServedAll(effect, s, inputs);
            r.screen.lines == HistoryOf(r.entered) && EachEntered(r.entered) && IsLongestFit(r.screen.lines, r.entered)
  {
    hide IsLongestFit, Remember;
    if inputs != [] {
      var before, i := inputs[..|inputs| - 1], inputs[|inputs| - 1];
      HistoryServed(effect, s, before);
      OneServed(effect, ServedAll(effect, s, before), i);
    }
    var entered := ServedAll(effect, s, inputs).entered;
    HistoryIsLongestSuffix(entered);
    AllNonEmpty(entered);
  }

  ghost predicate EachEntered(entered: seq<Line>) {
    forall k :: 0 <= k < |entered| ==> 0 < |entered[k]| < COMMAND_SIZE
  }

  lemma OneServed(effect: Effect, s: Session, i: Input)
    requires Editing(s.screen) && s.screen.lines == HistoryOf(s.entered) && EachEntered(s.entered)
    ensures var r := Served(effect, s, i); r.screen.lines == HistoryOf(r.entered) && EachEntered(r.entered)
  {
    hide Step, Remember, HistoryOf, Editing, After;
    match i
    case Typed(c) =>
      StepKeepsEditing(s.screen, c);
      EditingBounds(s.screen);
      EditingBounds(Step(s.screen, c).0);
      NewLineKeeps(Step(s.screen, c).0);
      if Step(s.screen, c).1 == EndOfLine {
        HistoryMore(s.entered, s.screen.text);
        var t := Step(s.screen, c).0;
        NewLineKeeps(t.(echo := effect(s.entered + [t.text], t.echo)));
      }
    case _ => AfterKeepsEditing(s.screen, i);
  }

  lemma NewLineKeeps(t: Screen)
    requires t.pos <= |t.text| && t.pos <= COMMAND_SIZE && Bounded(t.decoder) && -1 <= t.read < |t.lines|
    ensures After(t, NewLine).lines == t.lines
  {
  }

  class MainLoop {
    const decoder: CommandDecoder.Decoder
    /** What has arrived and not been read. */
    var uart: seq<byte>
    const effect: Effect
    /** Everything that has ever arrived, and what the loop has taken it for. */
    ghost var arrived: seq<byte>
    ghost var inputs: seq<Input>
    /** The lines handed to the command parser. */
    var entered: seq<Line>
    ghost const first: Screen

    constructor (decoder: CommandDecoder.Decoder, effect: Effect)
      requires decoder.Valid()
      ensures Valid() && this.decoder == decoder && this.effect == effect && first == decoder.Value()
      ensures uart == [] && arrived == [] && inputs == [] && entered == []
    {
      hide CommandDecoder.Decoder.Ready;
      decoder.ValidIsEditing();
      this.decoder, this.effect, uart := decoder, effect, [];
      arrived, inputs, entered, first := [], [], [], decoder.Value();
      assert BytesOf([]) + [] == [];
      ghost var v := decoder.Value();
      assert allocated(decoder.Parts());
      new;
      assert this !in decoder.Parts();
      assert decoder.Valid() && decoder.Value() == v;
    }

    /** What the loop has made of the inputs, over any number of calls: the screen and the lines. */
    ghost predicate Valid()
      reads this, decoder, decoder.Parts()
    {
      && decoder.Valid() && Editing(first)
      && ServedAll(effect, Session(first, []), inputs) == Session(decoder.Value(), entered)
      && BytesOf(inputs) + uart == arrived
    }

    /** Bytes arrive. */
    method Receive(bytes: seq<byte>)
      requires Valid()
      modifies this`uart, this`arrived
      ensures Valid() && arrived == old(arrived) + bytes && uart == old(uart) + bytes
      ensures inputs == old(inputs) && entered == old(entered)
    {
      hide CommandDecoder.Decoder.Valid, Editing, BytesOf, ServedAll;
      assert BytesOf(inputs) + (uart + bytes) == BytesOf(inputs) + uart + bytes;
      assert this !in decoder.Parts() && allocated(decoder.Parts());
      ghost var v := decoder.Value();
      uart, arrived := uart + bytes, arrived + bytes;
      assert decoder.Valid();
      assert decoder.Value() == v;
    }

    /** One call of `ATCMD_Update` in command mode, taking `used` of the bytes that wait; the clock reads as in `Process`. */
    method Update(now: nat, times: seq<nat>) returns (ghost used: nat)
      requires Valid() && now < CLOCK && |times| == |uart| && forall i :: 0 <= i < |times| ==> times[i] < CLOCK
      modifies this`uart, this`inputs, this`entered, decoder, decoder.Parts(), decoder.serial
      ensures Valid() && arrived == old(arrived)
      ensures used <= |old(uart)| && uart == old(uart)[used..] && (old(uart) != [] ==> used > 0)
      ensures inputs == old(inputs) + Given(old(decoder.Lapsed(now))) + Inputs(old(uart)[..used])
    {
      hide StepsEcho, CommandDecoder.Decoder.Valid, CommandDecoder.Decoder.Value, CommandDecoder.Decoder.Lapsed,
        Steps, After, Editing, Outcome, ServedAll, BytesOf, Inputs, Given;
      ghost var s, lapsed := decoder.Value(), decoder.Lapsed(now);
      decoder.ValidIsEditing();
      EditingBounds(s);
      ghost var t := if lapsed then After(s, NewLine) else s;
      var all := uart;
      assert this !in decoder.Parts();
      var event, n := decoder.Process(all, now, times);
      used := n;
      assert n > 0 ==> all[..n][..n - 1] == all[..n - 1];
      assert all == all[..n] + all[n..];
      CallServed(effect, Session(first, []), inputs, lapsed, t, all[..n]);
      ghost var more, u := inputs + Given(lapsed) + Inputs(all[..n]), decoder.Value();
      assert ServedAll(effect, Session(first, []), more) == Outcome(effect, u, event, entered);
      assert BytesOf(more) + all[n..] == arrived;
      Follow(event);
      Note(more, all[n..]);
    }

    /** Keeps what is left of the bytes, and the record. */
    method Note(ghost inputs: seq<Input>, uart: seq<byte>)
      requires decoder.Valid()
      modifies this`inputs, this`uart
      ensures decoder.Valid() && decoder.Value() == old(decoder.Value()) && this.inputs == inputs && this.uart == uart
    {
      hide CommandDecoder.Decoder.Valid, CommandDecoder.Decoder.Value;
      assert this !in decoder.Parts() && allocated(decoder.Parts());
      this.inputs, this.uart := inputs, uart;
    }

    /** Acts on what one call of the terminal has reported. */
    method Follow(event: Event)
      requires decoder.Valid()
      modifies this`entered, decoder, decoder.Parts(), decoder.serial
      ensures decoder.Valid() && Editing(old(decoder.Value()))
      ensures Session(decoder.Value(), entered) == Outcome(effect, old(decoder.Value()), event, old(entered))
    {
      hide CommandDecoder.Decoder.Valid, Editing;
      decoder.ValidIsEditing();
      match event {
        case NoEvent =>
        case Error => decoder.StartNewLine();
        case EndOfLine =>
          var line := decoder.CommandLine();
          entered := entered + [line];
          var oldEcho := decoder.EchoSet(effect(entered, decoder.serialEcho));
          decoder.StartNewLine();
      }
    }
  }

  /** However bytes arrive and however often the loop runs: when nothing waits and no ESC has lapsed, screen and lines are those
      of the bytes one after the other. */
  lemma PortionsDoNotMatter(loop: MainLoop)
    requires loop.Valid() && loop.uart == [] && loop.inputs == Inputs(BytesOf(loop.inputs))
    ensures Session(loop.decoder.Value(), loop.entered)
            == ServedAll(loop.effect, Session(loop.first, []), Inputs(loop.arrived))
  {
    assert BytesOf(loop.inputs) + [] == BytesOf(loop.inputs);
  }
}
