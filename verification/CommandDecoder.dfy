/** The terminal object: the command buffer, the escape decoder and the history behind the line editor. */
module CommandDecoder {
  import opened Bytes
  import opened History
  import opened HistoryRing
  import opened Ansi
  import opened Terminal

  /** The system clock counts milliseconds in 32 bits. */
  const CLOCK: nat := 0x1_0000_0000

  /** AT_CMD_CONF_TP_ESC_TIMEOUT_MS */
  const ESC_TIMEOUT: nat := 250

  /** What is noted of the time when an ESC comes; 0 stands for none. */
  function Noted(decision: Decision, now: nat): nat {
    if decision != ControlEsc then 0 else if now == 0 then CLOCK - 1 else now
  }

  /** The UART as this code writes to it. */
  class Serial {
    /** Everything handed over so far. */
    var written: seq<byte>

    constructor ()
      ensures written == []
    {
      written := [];
    }

    /** `ATCMD_PlatformUARTWritePutBuffer` */
    method Put(bytes: seq<byte>)
      modifies this
      ensures written == old(written) + bytes
    {
      written := written + bytes;
    }
  }

  class Decoder {
    const ansiStreamState: StreamDecoder
    const tpLineHistory: LineHistory
    const cmdBuffer: array<byte>
    var cmdBufferLength: nat
    var cmdBufferInsertPos: nat
    var serialEcho: bool
    var escTime: nat
    const serial: Serial

    /** `TP_CommandDecoderInit` and the first `TP_CommandDecoderStartNewLine`. */
    constructor ()
      ensures Valid()
      ensures Value().lines == [] && Value() == Blank(true, Value().decoder, []) && serial.written == [PROMPT]
    {
      ansiStreamState := new StreamDecoder();
      tpLineHistory := new LineHistory();
      cmdBuffer := new byte[COMMAND_SIZE];
      cmdBufferLength, cmdBufferInsertPos := 0, 0;
      serialEcho, escTime := true, 0;
      serial := new Serial();
      new;
      ansiStreamState.Reset();
      serial.Put([PROMPT]);
    }

    ghost predicate Separate()
    {
      && cmdBuffer.Length == COMMAND_SIZE
      && cmdBuffer != ansiStreamState.escapeCSIParam && cmdBuffer != ansiStreamState.escapeCSICollect
      && cmdBuffer != tpLineHistory.lineBuf
      && tpLineHistory.lineBuf != ansiStreamState.escapeCSIParam && tpLineHistory.lineBuf != ansiStreamState.escapeCSICollect
    }

    ghost function Parts(): set<object>
    {
      {cmdBuffer, ansiStreamState, ansiStreamState.escapeCSIParam, ansiStreamState.escapeCSICollect,
       tpLineHistory, tpLineHistory.index, tpLineHistory.lineBuf}
    }

    /** The screen this object stands for. */
    ghost function Value(): Screen
      reads Parts(), this`cmdBufferLength, this`cmdBufferInsertPos, this`serialEcho
    {
      var length := if cmdBufferLength <= cmdBuffer.Length then cmdBufferLength else 0;
      Screen(cmdBuffer[..length], cmdBufferInsertPos, ansiStreamState.Value(), tpLineHistory.lines,
             tpLineHistory.read, serialEcho)
    }

    /** All but the note of the time, which lags while a byte is being processed. */
    ghost predicate Ready()
      reads Parts(), this`cmdBufferLength, this`cmdBufferInsertPos, this`serialEcho
    {
      && Separate() && ansiStreamState.Valid() && tpLineHistory.Settled()
      && cmdBufferLength <= COMMAND_SIZE && Editing(Value())
    }

    ghost predicate Valid()
      reads Parts(), this`cmdBufferLength, this`cmdBufferInsertPos, this`serialEcho, this`escTime
    {
      Ready() && escTime < CLOCK && (escTime != 0 <==> ansiStreamState.decision == ControlEsc)
    }

    /** `ATCMD_PlatformUARTWritePutBuffer`, where the echo is tested first. */
    method EchoBytes(bytes: seq<byte>)
      modifies serial
      ensures serial.written == old(serial.written) + if serialEcho then bytes else []
    {
      if serialEcho {
        serial.Put(bytes);
      }
    }

    /** `c` has been stored at the insert position, which still has to move; all else is as in `t`. */
    ghost predicate Stored(t: Screen, c: byte)
      reads Parts(), this`cmdBufferLength, this`cmdBufferInsertPos, this`serialEcho
    {
      && Separate() && ansiStreamState.Valid() && tpLineHistory.Settled()
      && cmdBufferInsertPos <= cmdBufferLength <= COMMAND_SIZE && cmdBufferInsertPos < COMMAND_SIZE
      && t == Screen(t.text, cmdBufferInsertPos, ansiStreamState.Value(), tpLineHistory.lines, tpLineHistory.read, serialEcho)
      && |t.text| == cmdBufferLength && cmdBuffer[cmdBufferInsertPos] == c
      && forall i :: 0 <= i < cmdBufferLength && i != cmdBufferInsertPos ==> cmdBuffer[i] == t.text[i]
    }

    /** One byte through the stream decoder. */
    method DecodeNext(c: byte) returns (decodeLength: int)
      requires Ready()
      modifies cmdBuffer, ansiStreamState, ansiStreamState.escapeCSIParam, ansiStreamState.escapeCSICollect
      ensures var s := old(Value());
              var (d, r) := DecodeByte(s.decoder, c, COMMAND_SIZE - s.pos);
              && decodeLength == (match r case NoSpace => -1 case Nothing => 0 case Text => 1)
              && (r == Text ==> Stored(s.(decoder := d), c))
              && (r != Text ==> Ready() && Value() == s.(decoder := d))
              && ansiStreamState.decision == d.decision
    {
      hide DecodeByte, LineHistory.Settled;
      ghost var s := Value();
      DecodedSpace(s.decoder, c, COMMAND_SIZE - s.pos);
      decodeLength := ansiStreamState.Decode(c, cmdBuffer, cmdBufferInsertPos, COMMAND_SIZE - cmdBufferInsertPos);
      assert decodeLength <= 0 ==> cmdBuffer[..cmdBufferLength] == s.text;
    }

    /** One turn of the loop of `TP_CommandDecoderProcess`. */
    method ProcessByte(c: byte, now: nat) returns (event: Event)
      requires Valid() && now < CLOCK
      modifies this, Parts(), serial
      ensures Valid() && (Value(), event) == Step(old(Value()), c)
      ensures serial.written == old(serial.written) + StepEcho(old(Value()), c)
      ensures escTime == Noted(ansiStreamState.decision, now)
    {
      hide DecodeByte, Act, ActEcho, LineHistory.Settled, Type, Editing, StreamDecoder.Valid, Step, StepEcho, Stored;
      ghost var s := Value();
      StepKeepsEditing(s, c);
      EditingBounds(s);
      StepCases(s, c);
      DecodedSpace(s.decoder, c, COMMAND_SIZE - s.pos);
      escTime := 0;
      var decodeLength := DecodeNext(c);
      if decodeLength > 0 {
        Advance(c, s.(decoder := DecodeByte(s.decoder, c, COMMAND_SIZE - s.pos).0));
        event := NoEvent;
      } else if decodeLength < 0 {
        event := Error;
      } else {
        event := Decide(now);
      }
    }

    /** The byte has been stored: echoes it and moves the insert position, and the end of the line with it. */
    method Advance(c: byte, ghost t: Screen)
      requires Stored(t, c) && Editing(Type(t, c))
      modifies this`cmdBufferInsertPos, this`cmdBufferLength, serial
      ensures Ready() && Value() == Type(t, c)
      ensures serial.written == old(serial.written) + if t.echo then [c] else []
    {
      hide LineHistory.Settled, Editing;
      EchoBytes([cmdBuffer[cmdBufferInsertPos]]);
      cmdBufferInsertPos := cmdBufferInsertPos + 1;
      if cmdBufferInsertPos >= cmdBufferLength {
        cmdBufferLength := cmdBufferInsertPos;
      }
      assert cmdBuffer[..cmdBufferLength] == Type(t, c).text;
    }

    /** Acts on the decoder's decision. */
    method Decide(now: nat) returns (event: Event)
      requires Ready() && cmdBufferInsertPos < COMMAND_SIZE && escTime == 0 && now < CLOCK
      modifies this, Parts(), serial
      ensures Ready() && (Value(), event) == Act(old(Value()))
      ensures serial.written == old(serial.written) + ActEcho(old(Value()))
      ensures ansiStreamState.decision == old(ansiStreamState.decision) && escTime == Noted(ansiStreamState.decision, now)
    {
      hide LineHistory.Settled, Remember, Backspace, Recall, Editing;
      ghost var s := Value();
      EditingBounds(s);
      ActKeepsEditing(s);
      event := NoEvent;
      match ansiStreamState.decision {
        case ControlBs => DeleteBack();
        case ControlLf => event := LineFeed();
        case ControlCr =>
          EchoBytes([RETURN]);
          cmdBufferInsertPos := 0;
          assert Value() == Act(s).0;
        case ControlEsc =>
          escTime := now;
          if escTime == 0 {
            escTime := CLOCK - 1;
          }
        case KeyUp =>
          if serialEcho {
            RecallOlder();
          }
        case KeyDown =>
          if serialEcho {
            RecallYounger();
          }
        case _ =>
      }
    }

    /** Ends the line, unless it is empty. */
    method LineFeed() returns (event: Event)
      requires Ready() && cmdBufferInsertPos < COMMAND_SIZE && ansiStreamState.decision == ControlLf
      modifies cmdBuffer, tpLineHistory, tpLineHistory.index, tpLineHistory.lineBuf, serial
      ensures Ready() && (Value(), event) == Act(old(Value()))
      ensures serial.written == old(serial.written) + ActEcho(old(Value()))
    {
      hide LineHistory.Settled, Remember, Editing;
      ghost var s := Value();
      EditingBounds(s);
      EchoBytes([LINE_FEED]);
      Terminate();
      if cmdBufferLength > 0 {
        StoreLine();
        event := EndOfLine;
      } else {
        EchoBytes([PROMPT]);
        event := NoEvent;
      }
    }

    /** The terminator the command parser relies on. */
    method Terminate()
      requires Ready() && cmdBufferInsertPos < COMMAND_SIZE
      modifies cmdBuffer
      ensures Ready() && Value() == old(Value()) && cmdBufferLength < COMMAND_SIZE
      ensures cmdBuffer[cmdBufferLength] == NUL
    {
      hide LineHistory.Settled;
      cmdBuffer[cmdBufferLength] := NUL;
      assert Value().text == old(Value()).text;
    }

    method DeleteBack()
      requires Ready() && cmdBufferInsertPos < COMMAND_SIZE
      modifies this`cmdBufferInsertPos, this`cmdBufferLength, serial
      ensures Ready() && Value() == Backspace(old(Value()))
      ensures serial.written == old(serial.written) + if serialEcho && old(cmdBufferInsertPos) > 0 then RUB_OUT else []
    {
      hide LineHistory.Settled;
      ghost var s := Value();
      if cmdBufferInsertPos > 0 {
        EchoBytes(RUB_OUT);
        if cmdBufferLength == cmdBufferInsertPos {
          cmdBufferLength := cmdBufferLength - 1;
        }
        cmdBufferInsertPos := cmdBufferInsertPos - 1;
      }
      assert Value().text == Backspace(s).text;
    }

    method StoreLine()
      requires Ready() && 0 < cmdBufferLength < COMMAND_SIZE
      modifies tpLineHistory, tpLineHistory.index, tpLineHistory.lineBuf
      ensures Ready()
      ensures Value() == old(Value()).(lines := Remember(old(Value()).lines, old(Value()).text), read := -1)
    {
      hide LineHistory.Settled, Remember;
      RememberLines(tpLineHistory.lines, Value().text);
      tpLineHistory.Store(cmdBuffer, cmdBufferLength);
    }

    /** Clears the terminal's line and writes out the recalled one. */
    method Redraw()
      requires cmdBufferLength <= cmdBuffer.Length
      modifies serial
      ensures serial.written == old(serial.written) + Redrawn(cmdBuffer[..cmdBufferLength])
    {
      serial.Put(CLEAR_LINE + [PROMPT]);
      serial.Put(cmdBuffer[..cmdBufferLength]);
    }

    method RecallOlder()
      requires Ready()
      modifies this`cmdBufferLength, this`cmdBufferInsertPos, serial, cmdBuffer,
        tpLineHistory`readLineIdx, tpLineHistory`read
      ensures Ready() && Value() == Recall(old(Value()), Older(old(Value())))
      ensures serial.written == old(serial.written) +
                var s := old(Value()); if Older(s) >= 0 then Redrawn(s.lines[Older(s)]) else []
    {
      hide LineHistory.Settled, Editing;
      ghost var s := Value();
      EditingBounds(s);
      RecallKeepsEditing(s, Older(s));
      var recalled, length := tpLineHistory.KeyUp(cmdBuffer);
      if recalled {
        cmdBufferLength, cmdBufferInsertPos := length, length;
        Redraw();
      }
      assert Value() == Recall(s, Older(s));
    }

    method RecallYounger()
      requires Ready()
      modifies this`cmdBufferLength, this`cmdBufferInsertPos, serial, cmdBuffer,
        tpLineHistory`readLineIdx, tpLineHistory`read
      ensures Ready()
      ensures var s := old(Value()); Value() == if s.read < 0 then s else Recall(s, Younger(s))
      ensures serial.written == old(serial.written) +
                var s := old(Value()); if s.read >= 0 then Redrawn(s.lines[Younger(s)]) else []
    {
      hide LineHistory.Settled, Editing;
      ghost var s := Value();
      EditingBounds(s);
      RecallKeepsEditing(s, Younger(s));
      var recalled, length := tpLineHistory.KeyDown(cmdBuffer);
      if recalled {
        cmdBufferLength, cmdBufferInsertPos := length, length;
        Redraw();
      }
      assert Value() == if s.read < 0 then s else Recall(s, Younger(s));
    }

    /** `TP_CommandDecoderStartNewLine` with the buffer it is always given. */
    method StartNewLine()
      requires Valid()
      modifies this`cmdBufferLength, this`cmdBufferInsertPos, this`escTime, serial, cmdBuffer,
        ansiStreamState, tpLineHistory`readLineIdx, tpLineHistory`read
      ensures Valid() && Value() == After(old(Value()), NewLine) && escTime == 0
      ensures serial.written == old(serial.written) + Prompt(serialEcho)
    {
      hide LineHistory.Settled, Editing;
      ClearLine();
      EchoBytes([PROMPT]);
    }

    method ClearLine()
      requires Valid()
      modifies this`cmdBufferLength, this`cmdBufferInsertPos, this`escTime, cmdBuffer,
        ansiStreamState, tpLineHistory`readLineIdx, tpLineHistory`read
      ensures Valid() && Value() == After(old(Value()), NewLine) && escTime == 0
    {
      hide LineHistory.Settled, Editing, StreamDecoder.Valid;
      ghost var s := Value();
      BlankIsEditing(s);
      tpLineHistory.ResetRead();
      ansiStreamState.Reset();
      cmdBufferLength, cmdBufferInsertPos, escTime := 0, 0, 0;
      cmdBuffer[0] := NUL;
      assert Value() == Blank(s.echo, s.decoder, s.lines);
    }

    method EchoSet(newEcho: bool) returns (oldEcho: bool)
      requires Valid()
      modifies this`serialEcho
      ensures Valid() && Value() == After(old(Value()), SetEcho(newEcho)) && oldEcho == old(serialEcho)
    {
      hide LineHistory.Settled;
      oldEcho := serialEcho;
      serialEcho := newEcho;
    }

    /** The line as the command parser finds it in the buffer. */
    method CommandLine() returns (line: Line)
      requires Valid()
      ensures line == Value().text && serialEcho == Value().echo
    {
      line := cmdBuffer[..cmdBufferLength];
    }

    /** A solitary ESC has been waiting too long: the line is given up. */
    ghost predicate Lapsed(now: nat)
      reads this`serialEcho, this`escTime
    {
      serialEcho && escTime != 0 && (now - escTime) % CLOCK > ESC_TIMEOUT
    }

    method GiveUp(now: nat)
      requires Valid()
      modifies this, Parts(), serial
      ensures Valid()
      ensures Value() == if old(Lapsed(now)) then After(old(Value()), NewLine) else old(Value())
      ensures escTime == if old(Lapsed(now)) then 0 else old(escTime)
      ensures serial.written == old(serial.written) + if old(Lapsed(now)) then CLEAR_LINE + [PROMPT] else []
    {
      hide LineHistory.Settled;
      if serialEcho && escTime != 0 && (now - escTime) % CLOCK > ESC_TIMEOUT {
        serial.Put(CLEAR_LINE);
        StartNewLine();
      }
    }

    /** `TP_CommandDecoderProcess` on the bytes that have arrived; `used` of them are taken. The clock reads `now` at the start
        and `times` as the bytes are taken. */
    method Process(uart: seq<byte>, now: nat, times: seq<nat>) returns (event: Event, used: nat)
      requires Valid() && now < CLOCK && |times| == |uart| && forall i :: 0 <= i < |times| ==> times[i] < CLOCK
      modifies this, Parts(), serial
      ensures Valid() && used <= |uart| && (event == NoEvent ==> used == |uart|)
      ensures event != NoEvent ==> used > 0
      ensures var s := if old(Lapsed(now)) then After(old(Value()), NewLine) else old(Value());
              && Editing(s) && (Value(), event) == Steps(s, uart[..used])
              && (used > 0 ==> Steps(s, uart[..used - 1]).1 == NoEvent)
              && serial.written == old(serial.written) + (if old(Lapsed(now)) then CLEAR_LINE + [PROMPT] else [])
                                + StepsEcho(s, uart[..used])
      ensures escTime == if used > 0 then Noted(ansiStreamState.decision, times[used - 1])
                         else if old(Lapsed(now)) then 0 else old(escTime)
    {
      hide Valid, Step, StepEcho, Editing, Value, Lapsed, After, Steps, StepsEcho;
      event, used := NoEvent, 0;
      GiveUp(now);
      ghost var s, written := Value(), serial.written;
      ValidIsEditing();
      NoBytes(s);
      while used < |uart| && event == NoEvent
        invariant Valid() && Editing(Value()) && used <= |uart|
        invariant (Value(), event) == Steps(s, uart[..used])
        invariant (event != NoEvent ==> used > 0) && (used > 0 ==> Steps(s, uart[..used - 1]).1 == NoEvent)
        invariant serial.written == written + StepsEcho(s, uart[..used])
        invariant escTime == if used > 0 then Noted(ansiStreamState.decision, times[used - 1])
                             else if old(Lapsed(now)) then 0 else old(escTime)
        decreases |uart| - used
      {
        ghost var t := Value();
        StepKeepsEditing(t, uart[used]);
        OneMore(s, uart[..used], uart[used]);
        event := ProcessByte(uart[used], times[used]);
        ValidIsEditing();
        used := used + 1;
        assert uart[..used] == uart[..used - 1] + [uart[used - 1]];
      }
    }

    lemma ValidIsEditing()
      requires Valid()
      ensures Editing(Value())
    {
    }
  }

  /** On a clock that does not wrap around: a line is given up exactly when echo is on and the ESC came more than 250 ms ago. An
      ESC at the very time the clock reads 0 counts as having come 1 ms before. */
  lemma LapsedIs(d: Decoder, noted: nat, now: nat)
    requires d.escTime == Noted(ControlEsc, noted % 4294967296) && noted <= now < noted + 4294967295
    ensures d.Lapsed(now % 4294967296)
       <==> d.serialEcho && now - noted + (if noted % 4294967296 == 0 then 1 else 0) > 250
  {
    var early := if noted % 4294967296 == 0 then 1 else 0;
    assert (now % CLOCK - d.escTime) % CLOCK == (now - noted + early) % CLOCK by {
      assert now % CLOCK == now - now / CLOCK * CLOCK && noted % CLOCK == noted - noted / CLOCK * CLOCK;
      var k := noted / CLOCK - now / CLOCK - early;
      SameTime(now - noted + early, k);
    }
  }

  lemma {:induction false} SameTime(t: int, k: int)
    ensures (t + k * CLOCK) % CLOCK == t % CLOCK
    decreases if k < 0 then -k else k
  {
    if k > 0 {
      SameTime(t, k - 1);
      assert t + k * CLOCK == t + (k - 1) * CLOCK + CLOCK;
    } else if k < 0 {
      SameTime(t, k + 1);
      assert t + (k + 1) * CLOCK == t + k * CLOCK + CLOCK;
    }
  }

  /** One byte, case by case. */
  lemma StepCases(s: Screen, c: byte)
    requires s.pos <= |s.text| && s.pos <= COMMAND_SIZE && Bounded(s.decoder) && -1 <= s.read < |s.lines|
    ensures var (d, r) := DecodeByte(s.decoder, c, COMMAND_SIZE - s.pos);
            var t := s.(decoder := d);
            && (r == NoSpace ==> Step(s, c) == (t, Error) && StepEcho(s, c) == [])
            && (r == Text ==> Step(s, c) == (Type(t, c), NoEvent) && StepEcho(s, c) == if s.echo then [c] else [])
            && (r == Nothing ==> Step(s, c) == Act(t) && StepEcho(s, c) == ActEcho(t))
  {
  }

  lemma NoBytes(s: Screen)
    requires Editing(s)
    ensures Steps(s, []) == (s, NoEvent) && StepsEcho(s, []) == []
  {
  }

  /** One more byte, when nothing has happened yet. */
  lemma {:induction false} OneMore(s: Screen, bytes: seq<byte>, c: byte)
    requires Editing(s) && Steps(s, bytes).1 == NoEvent
    ensures Editing(Steps(s, bytes).0)
    ensures Steps(s, bytes + [c]) == Step(Steps(s, bytes).0, c)
    ensures StepsEcho(s, bytes + [c]) == StepsEcho(s, bytes) + StepEcho(Steps(s, bytes).0, c)
    decreases |bytes|
  {
    hide Step, StepEcho;
    StepsKeepEditing(s, bytes);
    if bytes == [] {
      assert [] + [c] == [c] && [c][1..] == [];
      StepKeepsEditing(s, c);
    } else {
      assert (bytes + [c])[0] == bytes[0] && (bytes + [c])[1..] == bytes[1..] + [c];
      StepKeepsEditing(s, bytes[0]);
      OneMore(Step(s, bytes[0]).0, bytes[1..], c);
    }
  }
}
