/**
 What the user sees: the echo of firmware/src/at_cmd_engine/terminal/terminal.c, interpreted by a
 terminal as ECMA-48 has it, against the command line the editor holds.
 */
module Display {
  import opened Bytes
  import opened History
  import opened HistoryRing
  import opened Ansi
  import opened Terminal

  datatype Mode = Plain | AfterEscape | InControl(param: seq<byte>)

  /** The row the cursor is in, and its column. */
  datatype Display = Display(row: seq<byte>, column: nat, mode: Mode)

  /** A character at the cursor, which moves on. */
  function Put(d: Display, c: byte): Display {
    var row := if d.column <= |d.row| then d.row else d.row + seq(d.column - |d.row|, i => SPACE);
    d.(row := if d.column < |row| then row[d.column := c] else row + [c], column := d.column + 1)
  }

  /** Cursor left (CUB) and erase in line (EL), sections 8.3.18 and 8.3.41 of ECMA-48. */
  function Controlled(d: Display, param: seq<byte>, final: byte): Display {
    if final == 0x44 && param == [] then d.(column := if d.column > 0 then d.column - 1 else 0)
    else if final == 0x4B && param == [] && d.column <= |d.row| then d.(row := d.row[..d.column])
    else if final == 0x4B && param == [0x32] then d.(row := [])
    else d
  }

  function Show(d: Display, c: byte): Display {
    match d.mode
    case Plain =>
      if c == ESCAPE then d.(mode := AfterEscape)
      else if c == RETURN then d.(column := 0)
      else if c == LINE_FEED then d.(row := [])
      else if IsDisplayable(c) then Put(d, c)
      else d
    case AfterEscape => d.(mode := if c == LEFT_BRACKET then InControl([]) else Plain)
    case InControl(param) =>
      if IsFinal(c) then Controlled(d, param, c).(mode := Plain) else d.(mode := InControl(param + [c]))
  }

  function ShowAll(d: Display, bytes: seq<byte>): Display
    decreases |bytes|
  {
    if bytes == [] then d else ShowAll(Show(d, bytes[0]), bytes[1..])
  }

  lemma {:induction false} ShowConcat(d: Display, a: seq<byte>, b: seq<byte>)
    ensures ShowAll(d, a + b) == ShowAll(ShowAll(d, a), b)
    decreases |a|
  {
    hide Show;
    if a == [] {
      assert a + b == b;
    } else {
      assert (a + b)[0] == a[0] && (a + b)[1..] == a[1..] + b;
      ShowConcat(Show(d, a[0]), a[1..], b);
    }
  }

  /** The prompt and the line are on display, the cursor where the next byte goes, at the end. */
  ghost predicate Shows(d: Display, s: Screen) {
    d == Display([PROMPT] + s.text, 1 + |s.text|, Plain) && s.pos == |s.text|
  }

  lemma {:induction false} ShowText(d: Display, text: seq<byte>)
    requires d.mode == Plain && d.column == |d.row| && AllDisplayable(text)
    ensures ShowAll(d, text) == Display(d.row + text, d.column + |text|, Plain)
    decreases |text|
  {
    if text == [] {
      assert d.row + text == d.row;
    } else {
      assert IsDisplayable(text[0]);
      ShowText(Show(d, text[0]), text[1..]);
      assert d.row + text == (d.row + [text[0]]) + text[1..];
    }
  }

  lemma ShowThree(d: Display, a: byte, b: byte, c: byte, rest: seq<byte>)
    ensures ShowAll(d, [a, b, c] + rest) == ShowAll(Show(Show(Show(d, a), b), c), rest)
  {
    hide Show;
    var all, two, one := [a, b, c] + rest, [b, c] + rest, [c] + rest;
    assert all[1..] == two && two[1..] == one && one[1..] == rest;
    assert ShowAll(d, all) == ShowAll(Show(d, a), two);
    assert ShowAll(Show(d, a), two) == ShowAll(Show(Show(d, a), b), one);
  }

  lemma RedrawnShows(d: Display, line: Line)
    requires d.mode == Plain && AllDisplayable(line)
    ensures ShowAll(d, Redrawn(line)) == Display([PROMPT] + line, 1 + |line|, Plain)
  {
    var rest := [0x4B, RETURN, NUL] + ([PROMPT] + line);
    assert Redrawn(line) == [ESCAPE, LEFT_BRACKET, 0x32] + rest;
    ShowThree(d, ESCAPE, LEFT_BRACKET, 0x32, rest);
    var mid := Show(Show(Show(d, ESCAPE), LEFT_BRACKET), 0x32);
    assert mid == d.(mode := InControl([0x32]));
    ShowThree(mid, 0x4B, RETURN, NUL, [PROMPT] + line);
    var cleared := Display([], 0, Plain);
    assert Show(Show(Show(mid, 0x4B), RETURN), NUL) == cleared;
    ShowConcat(cleared, [PROMPT], line);
    ShowText(cleared, [PROMPT]);
    assert [] + [PROMPT] == [PROMPT];
    ShowText(Display([PROMPT], 1, Plain), line);
  }

  /** Nothing in the line or the history would move the cursor on display. */
  ghost predicate Legible(s: Screen) {
    AllDisplayable(s.text) && forall k :: 0 <= k < |s.lines| ==> AllDisplayable(s.lines[k])
  }

  // ----- When the row shows the line -----

  /** How far the cursor is ahead of the insert position after a byte that stores nothing, `k` being how far it was: a return
      puts both at the start, where the prompt stands, a line feed on an empty line adds a prompt, redrawing sets things right. */
  function ActAhead(k: nat, s: Screen): nat
    requires -1 <= s.read < |s.lines|
  {
    match s.decoder.decision
    case ControlCr => 0
    case ControlLf => if s.text == [] then k + 1 else k
    case KeyUp => if Older(s) >= 0 then 1 else k
    case KeyDown => if s.read >= 0 then 1 else k
    case _ => k
  }

  function Ahead(k: nat, s: Screen, c: byte): nat
    requires s.pos <= |s.text| && s.pos <= COMMAND_SIZE && Bounded(s.decoder) && -1 <= s.read < |s.lines|
  {
    var (d, r) := DecodeByte(s.decoder, c, COMMAND_SIZE - s.pos);
    if r == Nothing then ActAhead(k, s.(decoder := d)) else k
  }

  function AheadAll(k: nat, s: Screen, bytes: seq<byte>): nat
    requires Editing(s)
    decreases |bytes|
  {
    if bytes == [] then k
    else
      StepKeepsEditing(s, bytes[0]);
      var (t, e) := Step(s, bytes[0]);
      var m := Ahead(k, s, bytes[0]);
      if e != NoEvent then m else AheadAll(m, t, bytes[1..])
  }

  /** The cursor is `k` columns ahead of the insert position, and one column ahead it stands behind the whole line. */
  ghost predicate Tracks(d: Display, s: Screen, k: nat) {
    && Legible(s) && s.echo
    && d.mode == Plain && d.column == s.pos + k && (k == 1 ==> Shows(d, s))
  }

  lemma ShowNothing(d: Display)
    ensures ShowAll(d, []) == d
  {
  }

  /** Cursor left and erase, wherever the cursor is. */
  lemma RubOutMoves(d: Display)
    requires d.mode == Plain && d.column > 0
    ensures var e := ShowAll(d, RUB_OUT);
            e.mode == Plain && e.column == d.column - 1 && (d.column == |d.row| ==> e.row == d.row[..d.column - 1])
  {
    var left := d.(column := d.column - 1);
    assert RUB_OUT == [ESCAPE, LEFT_BRACKET, 0x44] + ([ESCAPE, LEFT_BRACKET, 0x4B] + []);
    ShowThree(d, ESCAPE, LEFT_BRACKET, 0x44, [ESCAPE, LEFT_BRACKET, 0x4B] + []);
    ShowThree(left, ESCAPE, LEFT_BRACKET, 0x4B, []);
  }

  lemma FeedShows(d: Display)
    requires d.mode == Plain
    ensures var row := seq(d.column, i => SPACE) + [PROMPT];
            ShowAll(d, [LINE_FEED, PROMPT]) == Display(row, d.column + 1, Plain)
  {
    hide Put;
    var fed := d.(row := []);
    assert [LINE_FEED, PROMPT][1..] == [PROMPT] && [PROMPT][1..] == [];
    assert Show(d, LINE_FEED) == fed;
    assert ShowAll(fed, [PROMPT]) == Put(fed, PROMPT);
    PutBlank(d.column);
  }

  lemma PutBlank(column: nat)
    ensures Put(Display([], column, Plain), PROMPT) == Display(seq(column, i => SPACE) + [PROMPT], column + 1, Plain)
  {
    assert [] + seq(column, i => SPACE) == seq(column, i => SPACE);
    if column == 0 {
      assert seq(column, i => SPACE) == [];
    }
  }

  /** What a byte that stores nothing, and does not end the line, makes of the row. */
  lemma ActTracks(d: Display, s: Screen, k: nat)
    requires Editing(s) && Tracks(d, s, k) && Act(s).1 == NoEvent
    ensures Tracks(ShowAll(d, ActEcho(s)), Act(s).0, ActAhead(k, s))
  {
    hide Show, ShowAll, Redrawn;
    ShowNothing(d);
    match s.decoder.decision
    case ControlBs =>
      if s.pos > 0 {
        RubOutMoves(d);
        assert k == 1 ==> ([PROMPT] + s.text)[..|s.text|] == [PROMPT] + s.text[..|s.text| - 1];
      }
    case ControlLf =>
      FeedShows(d);
      assert d.column == 0 ==> seq(d.column, i => SPACE) + [PROMPT] == [PROMPT] + s.text;
    case ControlCr =>
      ShowReturn(d);
    case KeyUp =>
      if Older(s) >= 0 {
        RedrawnShows(d, s.lines[Older(s)]);
      }
    case KeyDown =>
      if s.read >= 0 {
        RedrawnShows(d, s.lines[Younger(s)]);
      }
    case _ =>
  }

  lemma ShowReturn(d: Display)
    requires d.mode == Plain
    ensures ShowAll(d, [RETURN]) == d.(column := 0)
  {
    assert [RETURN][1..] == [];
  }

  lemma TypeTracks(d: Display, s: Screen, c: byte, k: nat)
    requires Editing(s) && Tracks(d, s, k) && IsDisplayable(c)
    ensures Tracks(ShowAll(d, [c]), Type(s, c), k)
  {
    assert [c][1..] == [];
    assert ShowAll(d, [c]) == Put(d, c);
    assert [PROMPT] + s.text + [c] == [PROMPT] + (s.text + [c]);
  }

  lemma StoresDisplayable(d: Decoder, c: byte, maxSpace: nat)
    requires Bounded(d)
    ensures DecodeByte(d, c, maxSpace).1 == Text ==> IsDisplayable(c)
  {
    hide Escape;
  }

  lemma StepTracks(d: Display, s: Screen, c: byte, k: nat)
    requires Editing(s) && Tracks(d, s, k) && Step(s, c).1 != EndOfLine
    ensures Tracks(ShowAll(d, StepEcho(s, c)), Step(s, c).0, Ahead(k, s, c))
  {
    hide DecodeByte, Show, ShowAll, Act, ActEcho, ActAhead;
    StoresDisplayable(s.decoder, c, COMMAND_SIZE - s.pos);
    DecodedSpace(s.decoder, c, COMMAND_SIZE - s.pos);
    var (e, r) := DecodeByte(s.decoder, c, COMMAND_SIZE - s.pos);
    var t := s.(decoder := e);
    match r
    case NoSpace => ShowNothing(d);
    case Text => TypeTracks(d, t, c, k);
    case Nothing =>
      ActKeepsEditing(t);
      ActTracks(d, t, k);
  }

  lemma {:induction false} RunTracks(d: Display, s: Screen, bytes: seq<byte>, k: nat)
    requires Editing(s) && Tracks(d, s, k) && Steps(s, bytes).1 != EndOfLine
    ensures Tracks(ShowAll(d, StepsEcho(s, bytes)), Steps(s, bytes).0, AheadAll(k, s, bytes))
    decreases |bytes|
  {
    hide Step, StepEcho, Show, ShowAll, Tracks, Ahead;
    if bytes == [] {
      ShowNothing(d);
    } else {
      StepKeepsEditing(s, bytes[0]);
      StepTracks(d, s, bytes[0], k);
      var (t, e) := Step(s, bytes[0]);
      var shown, m := ShowAll(d, StepEcho(s, bytes[0])), Ahead(k, s, bytes[0]);
      if e == NoEvent {
        RunTracks(shown, t, bytes[1..], m);
        ShowConcat(d, StepEcho(s, bytes[0]), StepsEcho(t, bytes[1..]));
      } else {
        assert StepEcho(s, bytes[0]) + [] == StepEcho(s, bytes[0]);
      }
    }
  }

  /** Whatever is typed short of ending the line, in any mixture of characters, backspaces, returns, line feeds, control
      sequences and history keys: the user sees the prompt and exactly the line the editor holds, with the cursor behind it,
      exactly when the cursor is one column ahead of the insert position. */
  lemma RowIsTheLine(d: Display, s: Screen, bytes: seq<byte>)
    requires Editing(s) && s.echo && Legible(s) && Shows(d, s) && Steps(s, bytes).1 != EndOfLine
    ensures Shows(ShowAll(d, StepsEcho(s, bytes)), Steps(s, bytes).0) <==> AheadAll(1, s, bytes) == 1
  {
    hide ShowAll, StepsEcho, AheadAll, Steps;
    RunTracks(d, s, bytes, 1);
  }

  /** The keys that are understood: anything but return and line feed. */
  predicate StaysInLine(c: byte) { c != RETURN && c != LINE_FEED }

  lemma Decides(d: Decoder, c: byte, maxSpace: nat)
    requires Bounded(d) && StaysInLine(c)
    ensures DecodeByte(d, c, maxSpace).0.decision !in {ControlCr, ControlLf}
  {
    hide Escape;
  }

  lemma {:induction false} StaysAhead(s: Screen, bytes: seq<byte>)
    requires Editing(s) && forall i :: 0 <= i < |bytes| ==> StaysInLine(bytes[i])
    ensures AheadAll(1, s, bytes) == 1 && Steps(s, bytes).1 != EndOfLine
    decreases |bytes|
  {
    hide DecodeByte, StaysInLine;
    if bytes != [] {
      EditingBounds(s);
      Decides(s.decoder, bytes[0], COMMAND_SIZE - s.pos);
      StepKeepsEditing(s, bytes[0]);
      if Step(s, bytes[0]).1 == NoEvent {
        StaysAhead(Step(s, bytes[0]).0, bytes[1..]);
      }
    }
  }

  /** Without returns and line feeds the user always sees the line. */
  lemma RunShows(d: Display, s: Screen, bytes: seq<byte>)
    requires Editing(s) && s.echo && Legible(s) && Shows(d, s)
    requires forall i :: 0 <= i < |bytes| ==> StaysInLine(bytes[i])
    ensures var t := Steps(s, bytes).0; Legible(t) && t.echo && Shows(ShowAll(d, StepsEcho(s, bytes)), t)
  {
    hide ShowAll, StepsEcho, AheadAll, Steps, Shows, Legible, StaysInLine;
    StaysAhead(s, bytes);
    ShowsIsAhead(d, s);
    RunTracks(d, s, bytes, 1);
  }

  lemma ShowsIsAhead(d: Display, s: Screen)
    requires Shows(d, s)
    ensures d.mode == Plain && d.column == s.pos + 1
  {
  }

  /** A new line shows, and a line given up for a lapsed ESC does. */
  lemma NewLineShows(d: Display, s: Screen)
    requires Editing(s) && s.echo && d.mode == Plain
    ensures d.row == [] && d.column == 0 ==> Shows(ShowAll(d, Prompt(s.echo)), After(s, NewLine))
    ensures Shows(ShowAll(d, CLEAR_LINE + [PROMPT]), After(s, NewLine))
  {
    hide Show, ShowAll;
    assert [PROMPT] + [] == [PROMPT] && [] + [PROMPT] == [PROMPT];
    assert Redrawn([]) == CLEAR_LINE + [PROMPT] + [] == CLEAR_LINE + [PROMPT];
    RedrawnShows(d, []);
    if d.row == [] && d.column == 0 {
      ShowText(d, [PROMPT]);
    }
  }

  /** One displayable byte, or a return, on a line that has room. */
  lemma PlainStep(s: Screen, c: byte)
    requires Editing(s) && s.echo && s.decoder.state == Ground && s.pos < COMMAND_SIZE && (IsDisplayable(c) || c == RETURN)
    ensures var (t, e) := Step(s, c);
            && e == NoEvent && Editing(t) && t.echo && t.decoder.state == Ground && StepEcho(s, c) == [c]
            && t.(decoder := s.decoder) == if c == RETURN then s.(pos := 0) else Type(s, c)
  {
    StepKeepsEditing(s, c);
    assert PlainDecision(RETURN) == ControlCr;
  }

  lemma Overtyped(d: Display, a: byte, b: byte)
    requires d == Display([PROMPT], 1, Plain) && IsDisplayable(a) && IsDisplayable(b)
    ensures ShowAll(d, [a, RETURN, b]).row == [b, a]
  {
    assert [a, RETURN, b] == [a, RETURN, b] + [];
    ShowThree(d, a, RETURN, b, []);
  }

  /** A carriage return goes to the first column, which is that of the prompt, while the insert position is the one behind it:
      after `a`, return, `b` the user sees `ba` and the line is `b`. */
  lemma ReturnMisleads(s: Screen, a: byte, b: byte)
    requires Editing(s) && s.echo && s.decoder.state == Ground && s.text == [] && s.pos == 0
    requires IsDisplayable(a) && IsDisplayable(b)
    ensures var d, typed := Display([PROMPT], 1, Plain), [a, RETURN, b];
            && Shows(d, s) && Steps(s, typed).0.text == [b]
            && ShowAll(d, StepsEcho(s, typed)).row == [b, a]
  {
    hide Step, StepEcho, Show, ShowAll;
    assert [PROMPT] + [] == [PROMPT];
    var typed, one, two := [a, RETURN, b], [RETURN, b], [b];
    assert typed[1..] == one && one[1..] == two && two[1..] == [];
    PlainStep(s, a);
    var s1 := Step(s, a).0;
    PlainStep(s1, RETURN);
    var s2 := Step(s1, RETURN).0;
    PlainStep(s2, b);
    var s3 := Step(s2, b).0;
    assert Steps(s2, two) == (s3, NoEvent) && StepsEcho(s2, two) == [b];
    assert Steps(s1, one) == (s3, NoEvent) && StepsEcho(s1, one) == [RETURN, b];
    assert Steps(s, typed) == (s3, NoEvent) && StepsEcho(s, typed) == typed;
    Overtyped(Display([PROMPT], 1, Plain), a, b);
  }

  /** A return or a line feed on an empty line. */
  lemma BlankStep(s: Screen, c: byte, k: nat)
    requires Editing(s) && s.echo && s.decoder.state == Ground && s.text == [] && c in {RETURN, LINE_FEED}
    ensures var (t, e) := Step(s, c);
            && e == NoEvent && Editing(t) && t.echo && t.decoder.state == Ground && t.text == []
            && StepEcho(s, c) == (if c == RETURN then [RETURN] else [LINE_FEED, PROMPT])
            && Ahead(k, s, c) == if c == RETURN then 0 else k + 1
  {
    StepKeepsEditing(s, c);
    assert PlainDecision(RETURN) == ControlCr && PlainDecision(LINE_FEED) == ControlLf;
  }

  /** A line feed on an empty line moves the cursor down but not back, and a second prompt follows: it stands behind a blank,
      under the place of the first character. A return before it sets that right. */
  lemma LineFeedMisleads(d: Display, s: Screen)
    requires Editing(s) && s.echo && s.decoder.state == Ground && s.text == [] && Shows(d, s)
    ensures ShowAll(d, StepsEcho(s, [LINE_FEED])).row == [SPACE, PROMPT] && AheadAll(1, s, [LINE_FEED]) == 2
    ensures AheadAll(1, s, [RETURN, LINE_FEED]) == 1
  {
    hide Step, StepEcho, Show, ShowAll, Ahead;
    var both, one := [RETURN, LINE_FEED], [LINE_FEED];
    assert both[1..] == one && one[1..] == [];
    BlankStep(s, LINE_FEED, 1);
    assert StepsEcho(s, one) == [LINE_FEED, PROMPT] + [] == [LINE_FEED, PROMPT];
    FeedShows(d);
    assert seq(1, i => SPACE) + [PROMPT] == [SPACE, PROMPT];
    BlankStep(s, RETURN, 1);
    BlankStep(Step(s, RETURN).0, LINE_FEED, 0);
    assert AheadAll(0, Step(s, RETURN).0, one) == AheadAll(1, Step(Step(s, RETURN).0, LINE_FEED).0, []) == 1;
  }
}
