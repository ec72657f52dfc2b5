/**
 The parameter parser of firmware/src/at_cmd_engine/at_cmds/at_cmd_parser.c, which decodes a command
 line in place: it writes the decoded bytes and their terminators over the text it is still reading.
 */
module AtParser {
  import opened Bytes
  import opened AtParameters

  /** An entry of the parameter list: a value, or a pointer into the line. */
  datatype Entry = Value(value: int) | Pointer(kind: Kind, p: nat, length: nat)

  /** The entry stands for the parameter in this memory: text pointed to ends with a NUL. */
  ghost predicate Denotes(memory: seq<byte>, e: Entry, param: Param) {
    match e
    case Value(v) => param == IntegerParam(v)
    case Pointer(kind, p, length) =>
      && p + length < |memory| && memory[p + length] == NUL
      && (kind == Ascii || kind == Hex)
      && param == if kind == Ascii then AsciiParam(memory[p..p + length]) else HexParam(memory[p..p + length])
  }

  ghost predicate DenoteAll(memory: seq<byte>, entries: seq<Entry>, params: seq<Param>) {
    |entries| == |params| && forall k | 0 <= k < |entries| :: Denotes(memory, entries[k], params[k])
  }

  lemma DenoteMore(memory: seq<byte>, later: seq<byte>, entries: seq<Entry>, params: seq<Param>, e: Entry, param: Param)
    requires DenoteAll(memory, entries, params) && memory <= later && Denotes(later, e, param)
    ensures DenoteAll(later, entries + [e], params + [param])
  {
    DenoteStill(memory, later, entries, params);
  }

  /** Writing behind what the entries use leaves them standing. */
  lemma DenoteStill(memory: seq<byte>, later: seq<byte>, entries: seq<Entry>, params: seq<Param>)
    requires DenoteAll(memory, entries, params) && memory <= later
    ensures DenoteAll(later, entries, params)
  {
    forall k | 0 <= k < |entries|
      ensures Denotes(later, entries[k], params[k])
    {
      assert Denotes(memory, entries[k], params[k]);
      if entries[k].Pointer? {
        var p, n := entries[k].p, entries[k].length;
        assert memory[p..p + n] == later[p..p + n];
      }
    }
  }

  /** Memory in which the bytes from `at` on are `b`. */
  function Patched(memory: seq<byte>, at: nat, b: seq<byte>): (m: seq<byte>)
    requires at + |b| <= |memory|
    ensures |m| == |memory|
  {
    memory[..at] + b + memory[at + |b|..]
  }

  lemma PatchedMore(memory: seq<byte>, at: nat, b: seq<byte>, x: byte)
    requires at + |b| < |memory|
    ensures Patched(memory, at, b)[at + |b| := x] == Patched(memory, at, b + [x])
  {
  }

  /** Pairs of digits become bytes, written at or before the digits they are read from. */
  method HexStringToBytes(line: array<byte>, pStr: nat, strLength: nat, pBytes: nat) returns (retLength: nat)
    requires pBytes <= pStr && pStr + strLength <= line.Length
    modifies line
    ensures retLength == strLength / 2
    ensures line[..] == old(Patched(line[..], pBytes, HexBytes(line[pStr..pStr + strLength])))
  {
    hide Patched, HexBytes, CharToByte, HexDigit;
    retLength := strLength / 2;
    ghost var memory, bytes := line[..], HexBytes(line[pStr..pStr + strLength]);
    var left, k := strLength, 0;
    PatchedNothing(memory, pBytes, bytes[..0]);
    while left >= 2
      invariant left == strLength - 2 * k >= 0
      invariant line[..] == Patched(memory, pBytes, bytes[..k])
    {
      PatchedBehind(memory, pBytes, bytes[..k], pStr + 2 * k);
      PatchedBehind(memory, pBytes, bytes[..k], pStr + 2 * k + 1);
      HexBytesAt(memory[pStr..pStr + strLength], k);
      BytePair(line, pStr + 2 * k, pBytes + k);
      PatchedMore(memory, pBytes, bytes[..k], bytes[k]);
      assert bytes[..k + 1] == bytes[..k] + [bytes[k]];
      k := k + 1;
      left := left - 2;
    }
    assert bytes[..k] == bytes;
  }

  lemma PatchedNothing(memory: seq<byte>, at: nat, b: seq<byte>)
    requires at <= |memory| && b == []
    ensures Patched(memory, at, b) == memory
  {
  }

  lemma PatchedBehind(memory: seq<byte>, at: nat, b: seq<byte>, i: nat)
    requires at + |b| <= i < |memory|
    ensures Patched(memory, at, b)[i] == memory[i]
  {
  }

  /** The byte is begun over the first digit before the second is read. */
  method BytePair(line: array<byte>, from: nat, to: nat)
    requires to <= from && from + 1 < line.Length
    modifies line
    ensures line[..] == old(line[..])[to := old(PairToByte(line[from], line[from + 1]))]
  {
    line[to] := 16 * CharToByte(line[from]);
    line[to] := line[to] + CharToByte(line[from + 1]);
  }

  /** A terminated text written over memory: what is there afterwards. */
  lemma Terminated(memory: seq<byte>, at: nat, b: seq<byte>, later: seq<byte>, q: nat)
    requires at + |b| < q <= |memory| && later == Patched(memory, at, b)[at + |b| := NUL]
    ensures later[..at] == memory[..at] && later[q..] == memory[q..]
    ensures later[at..at + |b|] == b && later[at + |b|] == NUL
  {
  }

  lemma InPlace(memory: seq<byte>, p: nat, length: nat)
    requires p + length <= |memory|
    ensures Patched(memory, p, memory[p..p + length]) == memory
  {
  }

  lemma PointerDenotes(memory: seq<byte>, kind: Kind, p: nat, b: seq<byte>)
    requires p + |b| < |memory| && memory[p..p + |b|] == b && memory[p + |b|] == NUL && (kind == Ascii || kind == Hex)
    ensures Denotes(memory[..p + |b| + 1], Pointer(kind, p, |b|), if kind == Ascii then AsciiParam(b) else HexParam(b))
  {
    assert memory[..p + |b| + 1][p..p + |b|] == b;
  }

  function TextParam(kind: Kind, b: seq<byte>): Param {
    if kind == Ascii then AsciiParam(b) else HexParam(b)
  }

  /** Ends a decoded text that stands at p, and points to it. */
  method Terminate(line: array<byte>, p: nat, length: nat, kind: Kind, q: nat, ghost memory: seq<byte>, ghost b: seq<byte>)
    returns (entry: Entry, next: nat)
    requires |b| == length && p + length < q <= line.Length == |memory| && (kind == Ascii || kind == Hex)
    requires line[..] == Patched(memory, p, b)
    modifies line
    ensures line[..p] == memory[..p] && line[q..] == memory[q..]
    ensures next == p + length + 1 && Denotes(line[..next], entry, TextParam(kind, b))
  {
    hide Patched, Denotes;
    line[p + length] := NUL;
    Terminated(memory, p, b, line[..], q);
    entry, next := Pointer(kind, p, length), p + length + 1;
    PointerDenotes(line[..], kind, p, b);
  }

  /** The length of a hexadecimal string is passed on in 16 bits. */
  const HEX_LIMIT: nat := 0x1_0000

  /** Turns the characters of a parameter into its value; `next` is where the next one may be written. */
  method TranslateParam(line: array<byte>, p: nat, length: nat, kind: Kind, ghost cur: Current)
    returns (ok: bool, entry: Entry, next: nat)
    requires p + length < line.Length && Proper(cur) && length < HEX_LIMIT
    requires cur.kind == kind && cur.text == line[p..p + length]
    modifies line
    ensures ok <==> Translate(cur).Some?
    ensures line[..p] == old(line[..p]) && line[p + length + 1..] == old(line[p + length + 1..])
    ensures p <= next <= p + length + 1
    ensures ok ==> Denotes(line[..next], entry, Translate(cur).value)
  {
    hide HexBytes, IntegerValue, Patched, Denotes;
    ok, entry, next := false, Value(0), p;
    ghost var memory := line[..];
    InPlace(memory, p, length);
    assert memory[p..p + length] == cur.text;
    assert memory[..p] == line[..p] && memory[p + length + 1..] == line[p + length + 1..];
    match kind
    case Unknown =>
    case Integer =>
      line[p + length] := NUL;
      Terminated(memory, p, cur.text, line[..], p + length + 1);
      ok, entry := true, Value(IntegerValue(line[p..p + length]));
      ValueDenotes(line[..p], IntegerValue(cur.text));
    case Ascii =>
      ok := true;
      entry, next := Terminate(line, p, length, Ascii, p + length + 1, memory, cur.text);
    case Hex =>
      if length % 2 == 0 {
        ok := true;
        var retLength := HexStringToBytes(line, p, length % HEX_LIMIT, p);
        entry, next := Terminate(line, p, retLength, Hex, p + length + 1, memory, HexBytes(cur.text));
      }
  }

  lemma ValueDenotes(memory: seq<byte>, v: int)
    ensures Denotes(memory, Value(v), IntegerParam(v))
  {
  }

  /** What the parser does with a token: what to store, if anything, and how it reads on. */
  datatype Reading = Refused | Passed(kind: Kind, expectCommas: bool, hexInt: bool)
                   | Stored(token: byte, kind: Kind, expectCommas: bool, hexInt: bool, taken: nat)

  function AfterReading(cur: Current, reading: Reading): Step {
    match reading
    case Refused => Reject
    case Passed(kind, expectCommas, hexInt) => Continue(Current(kind, cur.text, expectCommas, hexInt), 1)
    case Stored(token, kind, expectCommas, hexInt, taken) =>
      Continue(Current(kind, cur.text + [token], expectCommas, hexInt), taken)
  }

  method ReadUnknown(token: byte, hexInt: bool, ghost cur: Current, ghost text: seq<byte>) returns (reading: Reading)
    requires cur == FRESH.(hexInt := hexInt) && text != [] && text[0] == token
    ensures AfterReading(cur, reading) == Next(cur, text)
  {
    if token == SPACE {
      return Passed(Unknown, true, hexInt);
    } else if token == QUOTE {
      return Passed(Ascii, false, hexInt);
    } else if token == LEFT_BRACKET {
      return Passed(Hex, false, hexInt);
    } else if token == MINUS || ZERO <= token <= NINE {
      return Stored(token, Integer, true, false, 1);
    } else {
      return Refused;
    }
  }

  method ReadInteger(line: array<byte>, p: nat, length: nat, token: byte, cmdLength: nat, hexInt: bool,
      ghost cur: Current, ghost text: seq<byte>)
    returns (reading: Reading)
    requires p + length <= line.Length && cur.text == line[p..p + length]
    requires cur.kind == Integer && cur.hexInt == hexInt && Proper(cur)
    requires |text| == cmdLength + 1 && text[0] == token
    ensures AfterReading(cur, reading) == Next(cur, text)
  {
    if length == 1 && (token == LOWER_X || token == UPPER_X) && line[p] == ZERO && cmdLength != 0 {
      return Stored(token, Integer, false, true, 1);
    } else if hexInt && length >= 2
              && (token < ZERO || NINE < token < UPPER_A || UPPER_F < token < LOWER_A || token > LOWER_F) {
      return Refused;
    } else if !hexInt && length >= 1 && (token < ZERO || token > NINE) {
      return Refused;
    } else {
      return Stored(token, Integer, true, hexInt, 1);
    }
  }

  /** The letter's place in "abtnvfr", or 7. */
  method FindControl(c: byte) returns (i: nat)
    ensures i <= 7
    ensures i < 7 ==> Escaped(c) == Some(0x07 + i)
    ensures i == 7 && c != LOWER_E && c != QUOTE && c != BACKSLASH ==> Escaped(c) == None
  {
    i := 0;
    while i < 7
      invariant i <= 7
      invariant forall j: nat :: j < i ==> c != ControlLetter(j)
    {
      if c == ControlLetter(i) {
        return;
      }
      i := i + 1;
    }
    assert c != ControlLetter(0) && c != ControlLetter(1) && c != ControlLetter(2) && c != ControlLetter(3);
    assert c != ControlLetter(4) && c != ControlLetter(5) && c != ControlLetter(6);
  }

  method ReadAscii(line: array<byte>, at: nat, token: byte, cmdLength: nat, expectCommas: bool, hexInt: bool,
      ghost cur: Current, ghost text: seq<byte>)
    returns (reading: Reading)
    requires cur == Current(Ascii, cur.text, expectCommas, hexInt)
    requires at + cmdLength < line.Length && text == [token] + line[at..at + cmdLength]
    ensures AfterReading(cur, reading) == Next(cur, text)
  {
    if token == QUOTE && !expectCommas {
      return Passed(Ascii, true, hexInt);
    } else if expectCommas {
      return if token != SPACE then Refused else Passed(Ascii, expectCommas, hexInt);
    } else if token <= 0x1F || token >= 0x7F {
      return Refused;
    } else if token == BACKSLASH {
      if cmdLength == 0 {
        return Refused;
      }
      var decoded := token;
      if line[at] == LOWER_E {
        decoded := ESCAPE;
      } else if line[at] == QUOTE {
        decoded := QUOTE;
      } else if line[at] != BACKSLASH {
        var i := FindControl(line[at]);
        if i == 7 {
          return Refused;
        }
        decoded := 0x07 + i;
      }
      return Stored(decoded, Ascii, expectCommas, hexInt, 2);
    }
    return Stored(token, Ascii, expectCommas, hexInt, 1);
  }

  method ReadHex(token: byte, expectCommas: bool, hexInt: bool, ghost cur: Current, ghost text: seq<byte>)
    returns (reading: Reading)
    requires cur == Current(Hex, cur.text, expectCommas, hexInt)
    requires text != [] && text[0] == token
    ensures AfterReading(cur, reading) == Next(cur, text)
  {
    if token == RIGHT_BRACKET && !expectCommas {
      return Passed(Hex, true, hexInt);
    } else if expectCommas {
      return if token != SPACE then Refused else Passed(Hex, expectCommas, hexInt);
    } else if token < ZERO || NINE < token < UPPER_A || UPPER_Z < token < LOWER_A || token > LOWER_Z {
      return Refused;
    }
    return Stored(token, Hex, expectCommas, hexInt, 1);
  }

  method ReadToken(line: array<byte>, p: nat, length: nat, kind: Kind, at: nat, cmdLength: nat, expectCommas: bool, hexInt: bool,
      token: byte, ghost cur: Current, ghost text: seq<byte>)
    returns (reading: Reading)
    requires cur == Current(kind, cur.text, expectCommas, hexInt) && Proper(cur)
    requires p + length <= line.Length && cur.text == line[p..p + length]
    requires at + cmdLength < line.Length && text == [token] + line[at..at + cmdLength]
    ensures AfterReading(cur, reading) == Next(cur, text)
  {
    hide Next, AfterReading;
    match kind
    case Unknown =>
      reading := ReadUnknown(token, hexInt, cur, text);
    case Integer =>
      reading := ReadInteger(line, p, length, token, cmdLength, hexInt, cur, text);
    case Ascii =>
      reading := ReadAscii(line, at, token, cmdLength, expectCommas, hexInt, cur, text);
    case Hex =>
      reading := ReadHex(token, expectCommas, hexInt, cur, text);
  }

  function Joined(done: seq<Param>, rest: Option<seq<Param>>): Option<seq<Param>> {
    if rest.None? then None else Some(done + rest.value)
  }

  /** What the parser has in hand between two tokens. */
  ghost predicate InHand(memory: seq<byte>, line: seq<byte>, cmdLength: nat, pCmd: nat, p: nat, length: nat, cur: Current,
      entries: seq<Entry>, done: seq<Param>)
  {
    && |memory| == |line| && pCmd <= cmdLength < |line|
    && p + length <= pCmd
    && memory[pCmd..] == line[pCmd..]
    && memory[p..p + length] == cur.text && Proper(cur)
    && DenoteAll(memory[..p], entries, done)
    && Joined(done, Scan(cur, line[pCmd..cmdLength])) == Parameters(line[..cmdLength])
    && |entries| + Entries(cur, line[pCmd..cmdLength]) == Entries(FRESH, line[..cmdLength])
  }

  /** The writing place is never past the reading place, and what is still to be read is as it was. */
  lemma WritesBehind(memory: seq<byte>, line: seq<byte>, cmdLength: nat, pCmd: nat, p: nat, length: nat, cur: Current,
      entries: seq<Entry>, done: seq<Param>)
    requires InHand(memory, line, cmdLength, pCmd, p, length, cur, entries, done)
    ensures |memory| == |line| && p + length <= pCmd <= cmdLength < |line|
    ensures memory[p..p + length] == cur.text && Proper(cur)
    ensures memory[pCmd..] == line[pCmd..] && memory[cmdLength + 1..] == line[cmdLength + 1..]
    ensures memory[pCmd] == line[pCmd] && memory[pCmd..cmdLength] == line[pCmd..cmdLength]
    ensures |entries| == |done| < Entries(FRESH, line[..cmdLength])
  {
    KeptBehind(memory, line, pCmd, cmdLength + 1);
    assert memory[pCmd..cmdLength] == memory[pCmd..][..cmdLength - pCmd];
    assert line[pCmd..cmdLength] == line[pCmd..][..cmdLength - pCmd];
    assert memory[pCmd] == memory[pCmd..][0] && line[pCmd] == line[pCmd..][0];
  }

  /** Going on after a token that is part of the parameter. */
  lemma TokenTaken(memory: seq<byte>, line: seq<byte>, cmdLength: nat, pCmd: nat, p: nat, length: nat, cur: Current,
      entries: seq<Entry>, done: seq<Param>, later: seq<byte>, next: Current, taken: nat)
    requires InHand(memory, line, cmdLength, pCmd, p, length, cur, entries, done)
    requires pCmd < cmdLength && !Separates(cur, line[pCmd])
    requires Next(cur, line[pCmd..cmdLength]) == Continue(next, taken)
    requires || (next.text == cur.text && later == memory)
             || (|next.text| == length + 1 && next.text[..length] == cur.text
                 && later == memory[p + length := next.text[length]])
    ensures InHand(later, line, cmdLength, pCmd + taken, p, |next.text|, next, entries, done)
  {
    hide Next, DenoteAll, Parameters;
    var text := line[pCmd..cmdLength];
    assert text[taken..] == line[pCmd + taken..cmdLength];
    assert later[..p] == memory[..p];
    assert later[pCmd + taken..] == memory[pCmd..][taken..];
    assert later[p..p + |next.text|] == next.text;
  }

  /** Going on after a comma. */
  lemma CommaTaken(memory: seq<byte>, line: seq<byte>, cmdLength: nat, pCmd: nat, p: nat, length: nat, cur: Current,
      entries: seq<Entry>, done: seq<Param>, later: seq<byte>, entry: Entry, next: nat)
    requires InHand(memory, line, cmdLength, pCmd, p, length, cur, entries, done)
    requires pCmd < cmdLength && Separates(cur, line[pCmd]) && Translate(cur).Some?
    requires |later| == |memory| && p <= next <= p + length + 1
    requires later[..p] == memory[..p] && later[p + length + 1..] == memory[p + length + 1..]
    requires Denotes(later[..next], entry, Translate(cur).value)
    ensures InHand(later, line, cmdLength, pCmd + 1, next, 0, FRESH.(hexInt := cur.hexInt),
                   entries + [entry], done + [Translate(cur).value])
  {
    hide Next, DenoteAll, Denotes, Translate, Parameters;
    var text, anew := line[pCmd..cmdLength], FRESH.(hexInt := cur.hexInt);
    assert text[1..] == line[pCmd + 1..cmdLength];
    assert later[pCmd + 1..] == memory[pCmd..][1..];
    assert later[..p] == later[..next][..p];
    DenoteMore(memory[..p], later[..next], entries, done, entry, Translate(cur).value);
    var rest := Scan(anew, text[1..]);
    if rest.Some? {
      assert done + ([Translate(cur).value] + rest.value) == done + [Translate(cur).value] + rest.value;
    }
  }

  lemma NothingTaken(line: seq<byte>, cmdLength: nat)
    requires 0 < cmdLength < |line|
    ensures InHand(line, line, cmdLength, 0, 0, 0, FRESH, [], [])
  {
    hide Scan, Entries;
    assert line[0..cmdLength] == line[..cmdLength];
    var all := Parameters(line[..cmdLength]);
    if all.Some? {
      assert [] + all.value == all.value;
    }
  }

  /** A refused token, or a parameter without meaning, refuses the whole text. */
  lemma Refuses(memory: seq<byte>, line: seq<byte>, cmdLength: nat, pCmd: nat, p: nat, length: nat, cur: Current,
      entries: seq<Entry>, done: seq<Param>)
    requires InHand(memory, line, cmdLength, pCmd, p, length, cur, entries, done)
    requires if pCmd < cmdLength && !Separates(cur, line[pCmd])
             then Next(cur, line[pCmd..cmdLength]) == Reject
             else Translate(cur).None?
    ensures Parameters(line[..cmdLength]).None?
  {
    hide Next, DenoteAll, Translate, Parameters;
  }

  /** The end of the text ends the last parameter. */
  lemma ListEnds(memory: seq<byte>, line: seq<byte>, cmdLength: nat, p: nat, length: nat, cur: Current,
      entries: seq<Entry>, done: seq<Param>, later: seq<byte>, entry: Entry, next: nat)
    requires InHand(memory, line, cmdLength, cmdLength, p, length, cur, entries, done)
    requires Translate(cur).Some? && p <= next <= |later| && later[..p] == memory[..p]
    requires Denotes(later[..next], entry, Translate(cur).value)
    ensures Parameters(line[..cmdLength]) == Some(done + [Translate(cur).value])
    ensures DenoteAll(later, entries + [entry], done + [Translate(cur).value])
  {
    hide Next, DenoteAll, Denotes, Translate, Parameters;
    assert line[cmdLength..cmdLength] == [];
    assert [Translate(cur).value] + [] == [Translate(cur).value];
    assert later[..p] == later[..next][..p];
    DenoteMore(memory[..p], later[..next], entries, done, entry, Translate(cur).value);
    DenoteStill(later[..next], later, entries + [entry], done + [Translate(cur).value]);
  }

  lemma NoParameters(text: seq<byte>)
    requires text == []
    ensures Parameters(text).None?
  {
  }

  lemma NulFreeAt(text: seq<byte>, i: nat)
    requires NulFree(text) && i < |text|
    ensures text[i] != NUL
  {
  }

  lemma KeptBehind(memory: seq<byte>, later: seq<byte>, i: nat, q: nat)
    requires i <= q <= |memory| == |later| && memory[i..] == later[i..]
    ensures memory[q..] == later[q..]
  {
    assert memory[q..] == memory[i..][q - i..];
  }

  lemma ReadingCases(cur: Current, reading: Reading)
    ensures reading.Refused? ==> AfterReading(cur, reading) == Reject
    ensures reading.Passed? ==>
              AfterReading(cur, reading) == Continue(Current(reading.kind, cur.text, reading.expectCommas, reading.hexInt), 1)
    ensures reading.Stored? ==>
              AfterReading(cur, reading)
              == Continue(Current(reading.kind, cur.text + [reading.token], reading.expectCommas, reading.hexInt), reading.taken)
  {
  }

  /** The entry for the parameter that begins: nothing is known of it yet. */
  method BeginEntry(pParamList: array<Entry>, numParams: nat, p: nat)
    requires numParams < pParamList.Length
    modifies pParamList
    ensures pParamList[..numParams] == old(pParamList[..numParams])
  {
    pParamList[numParams] := Pointer(Unknown, p, 0);
  }

  /** Ends a parameter, at a comma or at the end of the text, and enters its value into the list. */
  method EndParam(line: array<byte>, p: nat, length: nat, kind: Kind, pParamList: array<Entry>, n: nat,
      ghost text: seq<byte>, ghost cmdLength: nat, ghost pCmd: nat, ghost cur: Current, ghost done: seq<Param>)
    returns (ok: bool, next: nat)
    requires cmdLength < HEX_LIMIT && n < pParamList.Length && cur.kind == kind
    requires InHand(line[..], text, cmdLength, pCmd, p, length, cur, pParamList[..n], done)
    requires pCmd < cmdLength ==> Separates(cur, text[pCmd])
    modifies line, pParamList
    ensures line[cmdLength + 1..] == old(line[cmdLength + 1..])
    ensures !ok ==> Parameters(text[..cmdLength]).None?
    ensures ok ==> Translate(cur).Some?
    ensures ok && pCmd < cmdLength ==>
              InHand(line[..], text, cmdLength, pCmd + 1, next, 0, FRESH.(hexInt := cur.hexInt),
                     pParamList[..n + 1], done + [Translate(cur).value])
    ensures ok && pCmd == cmdLength ==>
              && Parameters(text[..cmdLength]) == Some(done + [Translate(cur).value])
              && DenoteAll(line[..], pParamList[..n + 1], done + [Translate(cur).value])
  {
    hide Next, DenoteAll, Denotes, Translate, Parameters, Scan, NulFree, InHand, Proper, Entries;
    ghost var memory, entries := line[..], pParamList[..n];
    WritesBehind(memory, text, cmdLength, pCmd, p, length, cur, entries, done);
    var entry;
    ok, entry, next := TranslateParam(line, p, length, kind, cur);
    KeptBehind(memory, line[..], p + length + 1, cmdLength + 1);
    if !ok {
      Refuses(memory, text, cmdLength, pCmd, p, length, cur, entries, done);
      return;
    }
    if pCmd < cmdLength {
      CommaTaken(memory, text, cmdLength, pCmd, p, length, cur, entries, done, line[..], entry, next);
    } else {
      ListEnds(memory, text, cmdLength, p, length, cur, entries, done, line[..], entry, next);
    }
    pParamList[n] := entry;
    assert pParamList[..n + 1] == entries + [entry];
  }

  /** Creates the parameter list of a NUL-terminated text, which it overwrites with the decoded parameters. The list must
      have room for every entry that is begun. */
  method ParseCommandParams(line: array<byte>, cmdLength: nat, pParamList: array<Entry>) returns (numParams: int)
    requires cmdLength < line.Length && line[cmdLength] == NUL && NulFree(line[..cmdLength]) && cmdLength < HEX_LIMIT
    requires Entries(FRESH, line[..cmdLength]) <= pParamList.Length
    modifies line, pParamList
    ensures numParams == if old(Parameters(line[..cmdLength])).None? then -1 else |old(Parameters(line[..cmdLength])).value|
    ensures numParams >= 0 ==> numParams <= pParamList.Length
    ensures numParams >= 0 ==> DenoteAll(line[..], pParamList[..numParams], old(Parameters(line[..cmdLength])).value)
    ensures line[cmdLength + 1..] == old(line[cmdLength + 1..])
  {
    hide Next, DenoteAll, Denotes, Translate, Parameters, Scan, AfterReading, NulFree, InHand, Proper, Entries;
    if cmdLength == 0 {
      NoParameters(line[..0]);
      return -1;
    }
    ghost var text, cur, done := line[..], FRESH, [];
    var left, pCmd, p, length, kind := cmdLength, 0, 0, 0, Unknown;
    var expectCommas, hexInt, n := true, false, 0;
    NothingTaken(text, cmdLength);
    assert pParamList[..0] == [];
    BeginEntry(pParamList, 0, 0);
    while left > 0
      invariant left == cmdLength - pCmd >= 0 && 0 <= n < pParamList.Length
      invariant InHand(line[..], text, cmdLength, pCmd, p, length, cur, pParamList[..n], done)
      invariant cur == Current(kind, cur.text, expectCommas, hexInt)
      decreases left
    {
      ghost var entries := pParamList[..n];
      WritesBehind(line[..], text, cmdLength, pCmd, p, length, cur, entries, done);
      var token := line[pCmd];
      assert token == text[pCmd] && token != NUL by { NulFreeAt(text[..cmdLength], pCmd); }  // so the source's second test never ends the loop
      ghost var memory, reader := line[..], pCmd;
      pCmd, left := pCmd + 1, left - 1;
      if token == COMMA && expectCommas {
        var ok, next := EndParam(line, p, length, kind, pParamList, n, text, cmdLength, reader, cur, done);
        if !ok {
          return -1;
        }
        done, cur := done + [Translate(cur).value], FRESH.(hexInt := hexInt);
        n := n + 1;
        WritesBehind(line[..], text, cmdLength, pCmd, next, 0, cur, pParamList[..n], done);
        BeginEntry(pParamList, n, next);
        p, length, kind := next, 0, Unknown;
      } else {
        assert text[reader..cmdLength] == [token] + line[pCmd..pCmd + left];
        var reading := ReadToken(line, p, length, kind, pCmd, left, expectCommas, hexInt, token, cur, text[reader..cmdLength]);
        ghost var step := Next(cur, text[reader..cmdLength]);
        ReadingCases(cur, reading);
        match reading
        case Refused =>
          Refuses(memory, text, cmdLength, reader, p, length, cur, entries, done);
          return -1;
        case Passed(k, e, h) =>
          TokenTaken(memory, text, cmdLength, reader, p, length, cur, entries, done, line[..], step.cur, 1);
          kind, expectCommas, hexInt := k, e, h;
          cur := step.cur;
        case Stored(b, k, e, h, taken) =>
          line[p + length] := b;
          TokenTaken(memory, text, cmdLength, reader, p, length, cur, entries, done, line[..], step.cur, taken);
          length, kind, expectCommas, hexInt := length + 1, k, e, h;
          pCmd, left := pCmd + (taken - 1), left - (taken - 1);
          cur := step.cur;
      }
    }
    WritesBehind(line[..], text, cmdLength, pCmd, p, length, cur, pParamList[..n], done);
    var ok, next := EndParam(line, p, length, kind, pParamList, n, text, cmdLength, pCmd, cur, done);
    return if ok then n + 1 else -1;
  }
}
