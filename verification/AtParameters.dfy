/**
 The parameter language of firmware/src/at_cmd_engine/at_cmds/at_cmd_parser.c, read from a text that
 stays as it is: integers, quoted strings with escapes, and hexadecimal strings, separated by commas.
 */
module AtParameters {
  import opened Bytes

  datatype Kind = Unknown | Integer | Ascii | Hex

  datatype Param = IntegerParam(value: int) | AsciiParam(text: seq<byte>) | HexParam(bytes: seq<byte>)

  /** The parameter being read: the bytes accepted so far and the two flags of the source. */
  datatype Current = Current(kind: Kind, text: seq<byte>, expectCommas: bool, hexInt: bool)

  const FRESH := Current(Unknown, [], true, false)

  // ----- Values -----

  /** `CharToByte`: the digit's value, and 0 for everything else. */
  function CharToByte(c: byte): (d: nat)
    ensures d < 16
  {
    if HexDigit(c) < 0 then 0 else HexDigit(c)
  }

  function PairToByte(high: byte, low: byte): byte {
    16 * CharToByte(high) + CharToByte(low)
  }

  function HexBytes(t: seq<byte>): (b: seq<byte>)
    ensures |b| == |t| / 2
  {
    if |t| < 2 then [] else [PairToByte(t[0], t[1])] + HexBytes(t[2..])
  }

  lemma {:induction false} HexBytesAt(t: seq<byte>, k: nat)
    requires 2 * k + 1 < |t|
    ensures HexBytes(t)[k] == PairToByte(t[2 * k], t[2 * k + 1])
  {
    hide PairToByte;
    if k > 0 {
      HexBytesAt(t[2..], k - 1);
    }
  }

  /** The digits of a number in some base, read up to the first that is none (C, 7.22.1.4). */
  function Numeral(t: seq<byte>, base: nat, acc: nat): nat {
    if t == [] || !(0 <= HexDigit(t[0]) < base) then acc
    else Numeral(t[1..], base, base * acc + HexDigit(t[0]))
  }

  /** Base 0 of `strtoul`: a leading 0x means 16, a leading 0 means 8. */
  function Magnitude(t: seq<byte>): nat {
    if |t| > 2 && t[0] == ZERO && (t[1] == LOWER_X || t[1] == UPPER_X) then Numeral(t[2..], 16, 0)
    else if t != [] && t[0] == ZERO then Numeral(t, 8, 0)
    else Numeral(t, 10, 0)
  }

  const INT_LOWEST: int := -0x8000_0000
  const UINT_HIGHEST: int := 0xFFFF_FFFF

  /** `strtol` after a minus sign, `strtoul` otherwise, each stopping at its 32-bit limit. */
  function IntegerValue(t: seq<byte>): int
    requires t != []
  {
    if t[0] == MINUS then
      var v := -(Magnitude(t[1..]) as int);
      if v < INT_LOWEST then INT_LOWEST else v
    else
      var v := Magnitude(t);
      if v > UINT_HIGHEST then UINT_HIGHEST else v
  }

  /** What a finished parameter means; nothing read, or half a byte, is an error. */
  function Translate(cur: Current): Option<Param>
    requires cur.kind == Integer ==> cur.text != []
  {
    match cur.kind
    case Unknown => None
    case Integer => Some(IntegerParam(IntegerValue(cur.text)))
    case Ascii => Some(AsciiParam(cur.text))
    case Hex => if |cur.text| % 2 == 1 then None else Some(HexParam(HexBytes(cur.text)))
  }

  // ----- One token -----

  /** Position i of "abtnvfr", which stands for the control character 7 + i. */
  function ControlLetter(i: nat): byte
    requires i < 7
  {
    if i == 0 then LOWER_A else if i == 1 then LOWER_B else if i == 2 then LOWER_T
    else if i == 3 then LOWER_N else if i == 4 then LOWER_V else if i == 5 then LOWER_F else LOWER_R
  }

  /** What a backslash and this byte stand for. */
  function Escaped(c: byte): Option<byte> {
    if c == LOWER_E then Some(ESCAPE)
    else if c == QUOTE then Some(QUOTE)
    else if c == BACKSLASH then Some(BACKSLASH)
    else if c == LOWER_A then Some(0x07)
    else if c == LOWER_B then Some(0x08)
    else if c == LOWER_T then Some(0x09)
    else if c == LOWER_N then Some(0x0A)
    else if c == LOWER_V then Some(0x0B)
    else if c == LOWER_F then Some(0x0C)
    else if c == LOWER_R then Some(0x0D)
    else None
  }

  predicate IsAlphanumeric(c: byte) {
    IsDigit(c) || UPPER_A <= c <= UPPER_Z || LOWER_A <= c <= LOWER_Z
  }

  datatype Step = Reject | Continue(cur: Current, taken: nat)

  predicate Proper(cur: Current) {
    && (cur.kind == Integer ==> cur.text != [])
    && (cur.kind == Unknown ==> cur.text == [] && cur.expectCommas)
  }

  function Kept(cur: Current, b: byte): Current {
    cur.(text := cur.text + [b])
  }

  /** One token of a parameter, no separating comma. */
  function Next(cur: Current, text: seq<byte>): (s: Step)
    requires Proper(cur) && text != []
    ensures s.Continue? ==> Proper(s.cur) && 1 <= s.taken <= |text|
  {
    var token := text[0];
    match cur.kind
    case Unknown =>
      if token == SPACE then Continue(cur, 1)
      else if token == QUOTE then Continue(Current(Ascii, [], false, cur.hexInt), 1)
      else if token == LEFT_BRACKET then Continue(Current(Hex, [], false, cur.hexInt), 1)
      else if token == MINUS || IsDigit(token) then Continue(Current(Integer, [token], true, false), 1)
      else Reject
    case Integer =>
      if |cur.text| == 1 && (token == LOWER_X || token == UPPER_X) && cur.text[0] == ZERO && |text| > 1 then
        Continue(Kept(cur, token).(expectCommas := false, hexInt := true), 1)
      else if cur.hexInt && |cur.text| >= 2 && HexDigit(token) < 0 then Reject
      else if !cur.hexInt && !IsDigit(token) then Reject
      else Continue(Kept(cur, token).(expectCommas := true), 1)
    case Ascii =>
      if cur.expectCommas then
        if token == SPACE then Continue(cur, 1) else Reject
      else if token == QUOTE then Continue(cur.(expectCommas := true), 1)
      else if token <= 0x1F || token >= 0x7F then Reject
      else if token != BACKSLASH then Continue(Kept(cur, token), 1)
      else if |text| == 1 || Escaped(text[1]) == None then Reject
      else Continue(Kept(cur, Escaped(text[1]).value), 2)
    case Hex =>
      if cur.expectCommas then
        if token == SPACE then Continue(cur, 1) else Reject
      else if token == RIGHT_BRACKET then Continue(cur.(expectCommas := true), 1)
      else if IsAlphanumeric(token) then Continue(Kept(cur, token), 1)
      else Reject
  }

  // ----- A whole list -----

  predicate Separates(cur: Current, b: byte) {
    b == COMMA && cur.expectCommas
  }

  /** The parameters from the current one on, or none if the text is refused. */
  function Scan(cur: Current, text: seq<byte>): Option<seq<Param>>
    requires Proper(cur)
    decreases |text|
  {
    if text == [] then Listed(Translate(cur), Some([]))
    else if Separates(cur, text[0]) then
      Listed(Translate(cur), Scan(FRESH.(hexInt := cur.hexInt), text[1..]))
    else
      match Next(cur, text)
      case Reject => None
      case Continue(next, taken) => Scan(next, text[taken..])
  }

  function Listed(first: Option<Param>, rest: Option<seq<Param>>): Option<seq<Param>> {
    if first.None? || rest.None? then None else Some([first.value] + rest.value)
  }

  /** The parameter list of a command, as an out-of-place parser reads it. */
  function Parameters(text: seq<byte>): Option<seq<Param>> {
    if text == [] then None else Scan(FRESH, text)
  }

  /** How many entries of the list are begun while the text is read: one, and one more behind every separating comma reached. */
  function Entries(cur: Current, text: seq<byte>): (n: nat)
    requires Proper(cur)
    ensures n >= 1
    decreases |text|
  {
    if text == [] then 1
    else if Separates(cur, text[0]) then
      if Translate(cur).None? then 1 else 1 + Entries(FRESH.(hexInt := cur.hexInt), text[1..])
    else
      match Next(cur, text)
      case Reject => 1
      case Continue(next, taken) => Entries(next, text[taken..])
  }

  function Commas(text: seq<byte>): nat {
    if text == [] then 0 else (if text[0] == COMMA then 1 else 0) + Commas(text[1..])
  }

  lemma {:induction false} FewerCommas(text: seq<byte>, k: nat)
    requires k <= |text|
    ensures Commas(text[k..]) <= Commas(text)
  {
    if k > 0 {
      assert text[k..] == text[1..][k - 1..];
      FewerCommas(text[1..], k - 1);
    }
  }

  /** An accepted text begins as many entries as it has parameters; no text begins more than it has commas, and one. */
  lemma {:induction false} EntriesAreParameters(cur: Current, text: seq<byte>)
    requires Proper(cur)
    ensures Entries(cur, text) <= 1 + Commas(text)
    ensures Scan(cur, text).Some? ==> Entries(cur, text) == |Scan(cur, text).value|
    decreases |text|
  {
    hide Translate, Next;
    if text != [] {
      if Separates(cur, text[0]) {
        EntriesAreParameters(FRESH.(hexInt := cur.hexInt), text[1..]);
      } else if Next(cur, text).Continue? {
        EntriesAreParameters(Next(cur, text).cur, text[Next(cur, text).taken..]);
        FewerCommas(text, Next(cur, text).taken);
      }
    }
  }
}
