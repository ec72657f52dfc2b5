/** The escape sequence decoder of firmware/src/at_cmd_engine/terminal/ansi_decoder.c. */
module Ansi {
  import opened Bytes

  datatype EscapeState = Escaped | CsiEntry | CsiParam | CsiIgnore | CsiInter | Ss3 | Ground

  datatype Decision =
    | Init | Unknown | AlphaNumeric | Punct | Control | ControlBs | ControlLf | ControlCr | ControlDc2 | ControlEsc
    | Extended | EscapeCsi | KeyUp | KeyDown | F1 | EscapeSs3

  /** Size of the collect and parameter buffers. */
  const ROOM: nat := 16

  /** ANSI_STREAM_DECODER_STATE */
  datatype Decoder = Decoder(decision: Decision, state: EscapeState,
                             param: seq<byte>, paramLength: nat,
                             collect: seq<byte>, collectLength: nat,
                             finalByte: byte, ss3Byte: byte, dispatched: bool)

  predicate Bounded(d: Decoder) {
    |d.param| == ROOM && |d.collect| == ROOM && d.paramLength <= ROOM && d.collectLength <= ROOM
  }

  // ----- The state table -----

  predicate IsControl(c: byte) { c <= 0x17 || c == 0x19 || 0x1C <= c <= 0x1F }
  predicate IsIntermediate(c: byte) { 0x20 <= c <= 0x2F }
  predicate IsParameter(c: byte) { 0x30 <= c <= 0x3F }
  predicate IsFinal(c: byte) { 0x40 <= c <= 0x7E }

  function NextState(s: EscapeState, c: byte): EscapeState {
    if c == ESCAPE then Escaped
    else if IsControl(c) then s
    else match s
      case Escaped => if c == 0x4F then Ss3 else if c == 0x5B then CsiEntry else Ground
      case CsiEntry =>
        if IsIntermediate(c) then CsiInter
        else if c == COLON then CsiIgnore
        else if IsParameter(c) then CsiParam
        else if IsFinal(c) then Ground else s
      case CsiParam =>
        if IsIntermediate(c) then CsiInter
        else if c == COLON || 0x3C <= c <= 0x3F then CsiIgnore
        else if IsFinal(c) then Ground else s
      case CsiIgnore => if IsFinal(c) then Ground else s
      case CsiInter => if IsParameter(c) then CsiIgnore else if IsFinal(c) then Ground else s
      case Ss3 => if 0x20 <= c <= 0x7E then Ground else s
      case Ground => s
  }

  /** The byte is not part of the sequence: it is decoded like any other. */
  predicate PassesOn(s: EscapeState, c: byte) {
    c != ESCAPE && (IsControl(c) || (s == Escaped && c != 0x4F && c != 0x5B))
  }

  /** The byte goes to the collect buffer. (The first digit of a sequence does too.) */
  predicate Collects(s: EscapeState, c: byte) {
    || (s in {CsiEntry, CsiParam, CsiInter} && IsIntermediate(c))
    || (s == CsiEntry && c != COLON && 0x30 <= c <= 0x3B)
  }

  /** The byte goes to the parameter buffer. */
  predicate AddsParameter(s: EscapeState, c: byte) {
    || (s == CsiEntry && 0x3C <= c <= 0x3F)
    || (s == CsiParam && c != COLON && 0x30 <= c <= 0x3B)
  }

  predicate Dispatches(s: EscapeState, c: byte) { s in {CsiEntry, CsiParam, CsiInter} && IsFinal(c) }

  /** What `_EscapeEnterState` clears. */
  function Enter(d: Decoder, s: EscapeState): Decoder {
    if s == Escaped || s == CsiEntry then
      d.(state := s, collectLength := 0, paramLength := 0, ss3Byte := 0, dispatched := false)
    else if s == Ss3 then d.(state := s, ss3Byte := 0)
    else d.(state := s)
  }

  function Collect(d: Decoder, c: byte): Decoder
    requires Bounded(d)
  {
    if d.collectLength < ROOM then
      d.(collect := d.collect[d.collectLength := c], collectLength := d.collectLength + 1)
    else d
  }

  function AddParameter(d: Decoder, c: byte): Decoder
    requires Bounded(d)
  {
    if d.paramLength < ROOM then d.(param := d.param[d.paramLength := c], paramLength := d.paramLength + 1) else d
  }

  /** `_EscapeParser` */
  function Escape(d: Decoder, c: byte): (r: Decoder)
    requires Bounded(d)
    ensures Bounded(r) && r.decision == d.decision
  {
    var s := NextState(d.state, c);
    if c == ESCAPE then Enter(d, Escaped)
    else if IsControl(c) then d
    else
      var stored :=
        if Collects(d.state, c) then Collect(d, c)
        else if AddsParameter(d.state, c) then AddParameter(d, c)
        else if Dispatches(d.state, c) then d.(finalByte := c, dispatched := true)
        else if d.state == Ss3 && s == Ground then d.(ss3Byte := c)
        else d;
      if s != d.state then Enter(stored, s) else stored
  }

  /** What is decided when a sequence ends. */
  function EndDecision(d: Decoder): Decision
    requires Bounded(d)
  {
    if d.state != Ground then Unknown
    else if d.dispatched then
      if d.finalByte == 0x41 then KeyUp
      else if d.finalByte == 0x42 then KeyDown
      else if d.finalByte == 0x7E && d.param[0] == 0x31 then F1
      else EscapeCsi
    else if d.ss3Byte != 0 then EscapeSs3
    else Unknown
  }

  function PlainDecision(c: byte): Decision {
    if IsDigit(c) || UPPER_A <= c <= UPPER_Z || LOWER_A <= c <= LOWER_Z then AlphaNumeric
    else if 0x20 <= c <= 0x7E then Punct
    else if c == BACKSPACE then ControlBs
    else if c == LINE_FEED then ControlLf
    else if c == RETURN then ControlCr
    else if c == 0x12 then ControlDc2
    else if c == ESCAPE then ControlEsc
    else if c < 0x80 then Control
    else Extended
  }

  datatype Decoded = NoSpace | Nothing | Text

  /** `TP_ANSIStreamDecoder`: the new state, and whether the byte is to be stored. */
  function DecodeByte(d: Decoder, c: byte, maxSpace: nat): (r: (Decoder, Decoded))
    requires Bounded(d)
    ensures Bounded(r.0)
  {
    var d0 := d.(decision := Unknown);
    if maxSpace < 1 then (d0, NoSpace)
    else
      var d1 := if d.state != Ground then Escape(d0, c) else d0;
      if d.state != Ground && !PassesOn(d.state, c) then (d1.(decision := EndDecision(d1)), Nothing)
      else
        var d2 := d1.(decision := PlainDecision(c));
        if IsDisplayable(c) then (d2, Text)
        else if c == ESCAPE then (Enter(d2, Escaped), Nothing)
        else (d2, Nothing)
  }

  // ----- The decoder itself -----

  class StreamDecoder {
    var decision: Decision
    var escapeState: EscapeState
    const escapeCSIParam: array<byte>
    var escapeCSIParamLength: nat
    const escapeCSICollect: array<byte>
    var escapeCSICollectLength: nat
    var escapeCSIFinalByte: byte
    var escapeSS3Byte: byte
    var escapeDispatched: bool

    ghost predicate Valid()
      reads this, escapeCSIParam, escapeCSICollect
    {
      && escapeCSIParam.Length == ROOM && escapeCSICollect.Length == ROOM && escapeCSIParam != escapeCSICollect
      && escapeCSIParamLength <= ROOM && escapeCSICollectLength <= ROOM
    }

    ghost function Value(): (d: Decoder)
      reads this, escapeCSIParam, escapeCSICollect
    {
      Decoder(decision, escapeState, escapeCSIParam[..], escapeCSIParamLength, escapeCSICollect[..],
              escapeCSICollectLength, escapeCSIFinalByte, escapeSS3Byte, escapeDispatched)
    }

    constructor ()
      ensures Valid() && escapeState == Ground
      ensures fresh(escapeCSIParam) && fresh(escapeCSICollect)
    {
      escapeCSIParam, escapeCSICollect := new byte[ROOM], new byte[ROOM];
      decision, escapeState := Init, Ground;
      escapeCSIParamLength, escapeCSICollectLength := 0, 0;
      escapeCSIFinalByte, escapeSS3Byte, escapeDispatched := 0, 0, false;
    }

    /** `TP_ANSIStreamDecoderInit` */
    method Reset()
      requires Valid()
      modifies this
      ensures Valid() && Value() == old(Value()).(decision := Init, state := Ground)
    {
      decision, escapeState := Init, Ground;
    }

    method EnterState(state: EscapeState)
      requires Valid()
      modifies this
      ensures Valid() && Value() == Enter(old(Value()), state)
    {
      match state {
        case Escaped =>
          escapeCSICollectLength, escapeCSIParamLength, escapeSS3Byte, escapeDispatched := 0, 0, 0, false;
        case CsiEntry =>
          escapeCSICollectLength, escapeCSIParamLength, escapeSS3Byte, escapeDispatched := 0, 0, 0, false;
        case Ss3 =>
          escapeSS3Byte := 0;
        case _ =>
      }
      escapeState := state;
    }

    method CsiCollect(c: byte)
      requires Valid()
      modifies this, escapeCSICollect
      ensures Valid() && Value() == Collect(old(Value()), c)
    {
      if escapeCSICollectLength < ROOM {
        escapeCSICollect[escapeCSICollectLength] := c;
        escapeCSICollectLength := escapeCSICollectLength + 1;
      }
    }

    method CsiAddParam(c: byte)
      requires Valid()
      modifies this, escapeCSIParam
      ensures Valid() && Value() == AddParameter(old(Value()), c)
    {
      if escapeCSIParamLength < ROOM {
        escapeCSIParam[escapeCSIParamLength] := c;
        escapeCSIParamLength := escapeCSIParamLength + 1;
      }
    }

    method CsiDispatch(c: byte)
      requires Valid()
      modifies this
      ensures Valid() && Value() == old(Value()).(finalByte := c, dispatched := true)
    {
      escapeCSIFinalByte, escapeDispatched := c, true;
    }

    method EscapeParser(c: byte) returns (passOn: bool)
      requires Valid() && escapeState != Ground
      modifies this, escapeCSIParam, escapeCSICollect
      ensures Valid() && Value() == Escape(old(Value()), c)
      ensures passOn == PassesOn(old(escapeState), c)
    {
      if c == ESCAPE {
        EnterState(Escaped);
        return false;
      } else if c <= 0x17 || c == 0x19 || 0x1C <= c <= 0x1F {
        return true;
      }
      match escapeState {
        case Escaped =>
          if c <= 0x3F || c >= 0x60 {
            EnterState(Ground);
            return true;
          } else if c == 0x4F {
            EnterState(Ss3);
          } else if c == 0x5B {
            EnterState(CsiEntry);
          } else {
            EnterState(Ground);
            return true;
          }
        case CsiEntry => EntryByte(c);
        case CsiParam => ParamByte(c);
        case CsiIgnore =>
          if 0x40 <= c <= 0x7E {
            EnterState(Ground);
          }
        case CsiInter =>
          if 0x20 <= c <= 0x2F {
            CsiCollect(c);
          } else if 0x30 <= c <= 0x3F {
            EnterState(CsiIgnore);
          } else if 0x40 <= c <= 0x7E {
            CsiDispatch(c);
            EnterState(Ground);
          }
        case Ss3 =>
          if 0x20 <= c <= 0x7E {
            escapeSS3Byte := c;
            EnterState(Ground);
          }
        case Ground =>
      }
      return false;
    }

    /** A byte right behind `ESC [`. */
    method EntryByte(c: byte)
      requires Valid() && escapeState == CsiEntry && c != ESCAPE && !IsControl(c)
      modifies this, escapeCSIParam, escapeCSICollect
      ensures Valid() && Value() == Escape(old(Value()), c)
    {
      if 0x20 <= c <= 0x2F {
        CsiCollect(c);
        EnterState(CsiInter);
      } else if c == 0x3A {
        EnterState(CsiIgnore);
      } else if 0x30 <= c <= 0x3B {
        CsiCollect(c);
        EnterState(CsiParam);
      } else if 0x3C <= c <= 0x3F {
        CsiAddParam(c);
        EnterState(CsiParam);
      } else if 0x40 <= c <= 0x7E {
        CsiDispatch(c);
        EnterState(Ground);
      }
    }

    /** A byte behind a first parameter byte. */
    method ParamByte(c: byte)
      requires Valid() && escapeState == CsiParam && c != ESCAPE && !IsControl(c)
      modifies this, escapeCSIParam, escapeCSICollect
      ensures Valid() && Value() == Escape(old(Value()), c)
    {
      if 0x20 <= c <= 0x2F {
        CsiCollect(c);
        EnterState(CsiInter);
      } else if c == 0x3A || 0x3C <= c <= 0x3F {
        EnterState(CsiIgnore);
      } else if 0x30 <= c <= 0x3B {
        CsiAddParam(c);
      } else if 0x40 <= c <= 0x7E {
        CsiDispatch(c);
        EnterState(Ground);
      }
    }

    /** `TP_ANSIStreamDecoder`: stores at most one byte, at `pos`, and returns how many, or -1. */
    method Decode(c: byte, output: array<byte>, pos: nat, maxSpace: nat) returns (decodeLength: int)
      requires Valid() && output != escapeCSIParam && output != escapeCSICollect
      requires maxSpace > 0 ==> pos < output.Length
      modifies this, escapeCSIParam, escapeCSICollect, output
      ensures Valid()
      ensures var (d, r) := DecodeByte(old(Value()), c, maxSpace);
              && Value() == d
              && decodeLength == (match r case NoSpace => -1 case Nothing => 0 case Text => 1)
              && output[..] == if r == Text then old(output[..])[pos := c] else old(output[..])
    {
      hide Escape;
      decision := Unknown;
      if 1 > maxSpace {
        return -1;
      }
      if escapeState != Ground {
        var passOn := EscapeParser(c);
        if !passOn {
          SequenceDecision();
          return 0;
        }
      }
      if (0x30 <= c <= 0x39) || (0x41 <= c <= 0x5A) || (0x61 <= c <= 0x7A) {
        decision := AlphaNumeric;
      } else if (0x20 <= c <= 0x2F) || (0x3A <= c <= 0x40) || (0x5B <= c <= 0x60) || (0x7B <= c <= 0x7E) {
        decision := Punct;
      } else if c <= 0x1F || c == 0x7F {
        ControlDecision(c);
        return 0;
      } else if c >= 0x80 {
        decision := Extended;
        return 0;
      }
      output[pos] := c;
      return 1;
    }

    method SequenceDecision()
      requires Valid() && decision == Unknown
      modifies this`decision
      ensures Value() == old(Value()).(decision := EndDecision(old(Value())))
    {
      if escapeState == Ground {
        if escapeDispatched {
          decision := EscapeCsi;
          if escapeCSIFinalByte == 0x41 {
            decision := KeyUp;
          } else if escapeCSIFinalByte == 0x42 {
            decision := KeyDown;
          } else if escapeCSIFinalByte == 0x7E {
            if escapeCSIParam[0] == 0x31 {
              decision := F1;
            }
          }
        } else if escapeSS3Byte != 0 {
          decision := EscapeSs3;
        }
      }
    }

    method ControlDecision(c: byte)
      requires Valid() && (c <= 0x1F || c == 0x7F)
      modifies this
      ensures Valid()
      ensures var d := old(Value()).(decision := PlainDecision(c));
              Value() == if c == ESCAPE then Enter(d, Escaped) else d
    {
      match c {
        case 0x08 => decision := ControlBs;
        case 0x0A => decision := ControlLf;
        case 0x0D => decision := ControlCr;
        case 0x12 => decision := ControlDc2;
        case 0x1B =>
          decision := ControlEsc;
          EnterState(Escaped);
        case _ => decision := Control;
      }
    }
  }
}
