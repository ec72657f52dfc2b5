/**
 The texts the parameter parser of firmware/src/at_cmd_engine/at_cmds/at_cmd_parser.c accepts, as a
 grammar, and the parameters they stand for.
 */
module AtGrammar {
  import opened Bytes
  import opened AtParameters
  import opened AtIntegers
  import opened AtRoundTrip

  // ----- The grammar -----

  /** A character of a quoted string: itself, or a backslash and a letter. */
  datatype Char = Itself(b: byte) | Escape(letter: byte)

  datatype Body =
    | Decimal(text: seq<byte>)
    | Hexadecimal(x: byte, digits: seq<byte>)
    | Quoted(chars: seq<Char>)
    | Bracketed(digits: seq<byte>)

  /** Nothing behind a parameter, or the closing delimiter of a string and blanks. */
  datatype Ending = Bare | Closing(blanks: nat)

  /** A parameter behind blanks. */
  datatype Entry = Entry(blanks: nat, body: Body, ending: Ending)

  predicate IsHex(c: byte) { HexDigit(c) >= 0 }

  lemma HexesAreDigits(t: seq<byte>)
    ensures All(t, IsHex) <==> AreDigits(t, 16)
  {
    forall i | 0 <= i < |t| ensures IsHex(t[i]) <==> 0 <= DigitOf(t[i]) < 16 { DigitsAgree(t[i]); }
  }

  predicate All(t: seq<byte>, p: byte -> bool) {
    forall i :: 0 <= i < |t| ==> p(t[i])
  }

  predicate LegalChar(c: Char) {
    match c
    case Itself(b) => 0x20 <= b <= 0x7E && b != QUOTE && b != BACKSLASH
    case Escape(letter) => EscapeValue(letter).Some?
  }

  /** The letters that stand for control characters, the quote and the backslash (section 5.2.2 of C, and `\e`). */
  function EscapeValue(letter: byte): Option<byte> {
    match letter
    case 97 => Some(7)
    case 98 => Some(8)
    case 116 => Some(9)
    case 110 => Some(10)
    case 118 => Some(11)
    case 102 => Some(12)
    case 114 => Some(13)
    case 101 => Some(27)
    case 34 => Some(34)
    case 92 => Some(92)
    case _ => None
  }

  lemma EscapesAgree(letter: byte)
    ensures Escaped(letter) == EscapeValue(letter)
  {
  }

  predicate LetterOrDigit(c: byte) { 48 <= c <= 57 || 65 <= c <= 90 || 97 <= c <= 122 }

  lemma LettersAgree(t: seq<byte>)
    ensures All(t, LetterOrDigit) <==> All(t, IsAlphanumeric)
  {
    forall i | 0 <= i < |t| ensures LetterOrDigit(t[i]) <==> IsAlphanumeric(t[i]) {}
  }

  /** A minus sign needs no digits, `0x` needs some; between brackets stands an even number of letters and digits. */
  predicate LegalBody(b: Body) {
    match b
    case Decimal(t) => t != [] && (t[0] == MINUS || IsDigit(t[0])) && All(t[1..], IsDigit)
    case Hexadecimal(x, digits) => (x == 120 || x == 88) && digits != [] && AreDigits(digits, 16)
    case Quoted(chars) => forall i :: 0 <= i < |chars| ==> LegalChar(chars[i])
    case Bracketed(digits) => All(digits, LetterOrDigit) && |digits| % 2 == 0
  }

  predicate IsString(b: Body) { b.Quoted? || b.Bracketed? }

  predicate LegalEntry(e: Entry) {
    LegalBody(e.body) && (e.ending.Closing? ==> IsString(e.body))
  }

  /** Whether more may follow: a string that is not closed reaches to the end. */
  predicate Complete(e: Entry) { IsString(e.body) ==> e.ending.Closing? }

  predicate Legal(entries: seq<Entry>) {
    entries != [] && LegalEntry(entries[0]) && (|entries| > 1 ==> Complete(entries[0]) && Legal(entries[1..]))
  }

  function Spaces(n: nat): seq<byte> {
    seq(n, i => SPACE)
  }

  function CharText(c: Char): seq<byte> {
    match c
    case Itself(b) => [b]
    case Escape(letter) => [BACKSLASH, letter]
  }

  function CharsText(chars: seq<Char>): seq<byte> {
    if chars == [] then [] else CharText(chars[0]) + CharsText(chars[1..])
  }

  function IntegerText(b: Body): seq<byte>
    requires !IsString(b)
  {
    match b
    case Decimal(t) => t
    case Hexadecimal(x, digits) => [ZERO, x] + digits
  }

  function BodyText(b: Body): seq<byte> {
    match b
    case Quoted(chars) => [QUOTE] + CharsText(chars)
    case Bracketed(digits) => [LEFT_BRACKET] + digits
    case _ => IntegerText(b)
  }

  function EndingText(e: Entry): seq<byte> {
    match e.ending
    case Bare => []
    case Closing(n) => [if e.body.Quoted? then QUOTE else RIGHT_BRACKET] + Spaces(n)
  }

  function EntryText(e: Entry): seq<byte> {
    Spaces(e.blanks) + (BodyText(e.body) + EndingText(e))
  }

  function ListText(entries: seq<Entry>): seq<byte>
    decreases |entries|, 0
  {
    if entries == [] then [] else EntryText(entries[0]) + RestText(entries[1..])
  }

  /** What follows a parameter. */
  function RestText(entries: seq<Entry>): seq<byte>
    decreases |entries|, 1
  {
    if entries == [] then [] else [COMMA] + ListText(entries)
  }

  // ----- What it stands for -----

  function CharValue(c: Char): byte
    requires LegalChar(c)
  {
    match c
    case Itself(b) => b
    case Escape(letter) => EscapeValue(letter).value
  }

  function CharsValue(chars: seq<Char>): seq<byte>
    requires forall i :: 0 <= i < |chars| ==> LegalChar(chars[i])
  {
    if chars == [] then [] else [CharValue(chars[0])] + CharsValue(chars[1..])
  }

  function ParamOf(b: Body): Param
    requires LegalBody(b)
  {
    match b
    case Quoted(chars) => AsciiParam(CharsValue(chars))
    case Bracketed(digits) => HexParam(HexBytes(digits))
    case Decimal(t) =>
      PlacesAreDigits(t);
      IntegerParam(DecimalValue(t))
    case Hexadecimal(_, digits) => IntegerParam(HexadecimalValue(digits))
  }

  lemma PlacesAreDigits(t: seq<byte>)
    requires LegalBody(Decimal(t))
    ensures (t[0] == 45 || AreDigits(t[..1], 10)) && AreDigits(t[1..], 10)
  {
  }

  /** The number the parser makes of an integer's text is what it means. */
  lemma IntegerIsMeant(b: Body)
    requires LegalBody(b) && !IsString(b)
    ensures ParamOf(b) == IntegerParam(IntegerValue(IntegerText(b)))
  {
    hide IntegerValue, DigitOf, HexadecimalValue, DecimalValue;
    match b
    case Decimal(t) =>
      PlacesAreDigits(t);
      DecimalIs(t);
    case Hexadecimal(x, digits) => HexadecimalIs(x, digits);
  }

  function ParamsOf(entries: seq<Entry>): seq<Param>
    requires Legal(entries)
  {
    [ParamOf(entries[0].body)] + if |entries| > 1 then ParamsOf(entries[1..]) else []
  }

  // ----- Every text of the grammar is accepted -----

  /** Where blanks are passed over: before a parameter, and behind a closed string. */
  predicate Passes(cur: Current) {
    (cur.kind == Unknown && cur.text == [] && cur.expectCommas) || (cur.kind in {Ascii, Hex} && cur.expectCommas)
  }

  lemma {:induction false} SpacesScan(n: nat, cur: Current, rest: seq<byte>)
    requires Passes(cur)
    ensures Scan(cur, Spaces(n) + rest) == Scan(cur, rest)
  {
    hide Scan;
    var text := Spaces(n) + rest;
    if n == 0 {
      assert text == rest;
    } else {
      ScanNext(cur, text);
      assert text[1..] == Spaces(n - 1) + rest;
      SpacesScan(n - 1, cur, rest);
    }
  }

  lemma CharScans(c: Char, acc: seq<byte>, rest: seq<byte>, hexInt: bool)
    requires LegalChar(c)
    ensures Scan(Open(Ascii, acc, hexInt), CharText(c) + rest) == Scan(Open(Ascii, acc + [CharValue(c)], hexInt), rest)
  {
    hide Scan, Escaped, EscapeValue;
    if c.Escape? {
      EscapesAgree(c.letter);
    }
    var text := CharText(c) + rest;
    ScanNext(Open(Ascii, acc, hexInt), text);
    assert text[|CharText(c)|..] == rest;
  }

  lemma {:induction false} CharsScan(chars: seq<Char>, acc: seq<byte>, rest: seq<byte>, hexInt: bool)
    requires forall i :: 0 <= i < |chars| ==> LegalChar(chars[i])
    ensures Scan(Open(Ascii, acc, hexInt), CharsText(chars) + rest) == Scan(Open(Ascii, acc + CharsValue(chars), hexInt), rest)
    decreases |chars|
  {
    hide Scan, CharText, CharValue, LegalChar;
    if chars == [] {
      assert CharsText(chars) + rest == rest && acc + CharsValue(chars) == acc;
    } else {
      var more := CharsText(chars[1..]) + rest;
      assert CharsText(chars) + rest == CharText(chars[0]) + more;
      CharScans(chars[0], acc, more, hexInt);
      CharsScan(chars[1..], acc + [CharValue(chars[0])], rest, hexInt);
      assert acc + [CharValue(chars[0])] + CharsValue(chars[1..]) == acc + CharsValue(chars);
    }
  }

  lemma {:induction false} NibblesScan(digits: seq<byte>, acc: seq<byte>, rest: seq<byte>, hexInt: bool)
    requires All(digits, IsAlphanumeric)
    ensures Scan(Open(Hex, acc, hexInt), digits + rest) == Scan(Open(Hex, acc + digits, hexInt), rest)
    decreases |digits|
  {
    hide Scan, IsAlphanumeric;
    if digits == [] {
      assert digits + rest == rest && acc + digits == acc;
    } else {
      var more := digits[1..] + rest;
      assert digits + rest == [digits[0]] + more;
      NibbleScans(digits[0], acc, more, hexInt);
      NibblesScan(digits[1..], acc + [digits[0]], rest, hexInt);
      assert acc + [digits[0]] + digits[1..] == acc + digits;
    }
  }

  lemma {:induction false} HexScan(digits: seq<byte>, acc: seq<byte>, expectCommas: bool, rest: seq<byte>)
    requires All(digits, IsHex) && |acc| >= 2
    ensures Scan(Current(Integer, acc, expectCommas, true), digits + rest)
         == Scan(Current(Integer, acc + digits, expectCommas || digits != [], true), rest)
    decreases |digits|
  {
    hide Scan, HexDigit;
    var text := digits + rest;
    if digits == [] {
      assert text == rest && acc + digits == acc;
    } else {
      CommaIsNoHex();
      assert IsHex(text[0]);
      ScanNext(Current(Integer, acc, expectCommas, true), text);
      assert text[1..] == digits[1..] + rest;
      HexScan(digits[1..], acc + [digits[0]], true, rest);
      assert acc + [digits[0]] + digits[1..] == acc + digits;
    }
  }

  lemma CommaIsNoHex()
    ensures !IsHex(COMMA)
  {
  }

  /** An open parameter at the end of the text, or a complete one. */
  lemma EntryEnds(cur: Current, rest: seq<byte>)
    requires Proper(cur) && Ends(rest) && Translate(cur).Some? && (rest != [] ==> cur.expectCommas)
    ensures Scan(cur, rest) == Finished(Translate(cur).value, rest, cur.hexInt)
  {
    hide Translate, Next;
  }

  lemma IntegerScans(b: Body, rest: seq<byte>, hexInt: bool) returns (later: bool)
    requires LegalBody(b) && !IsString(b) && Ends(rest)
    ensures Scan(FRESH.(hexInt := hexInt), BodyText(b) + rest) == Finished(ParamOf(b), rest, later)
  {
    hide Scan, IntegerValue, Finished, HexDigit, ParamOf, AreDigits;
    IntegerIsMeant(b);
    match b
    case Decimal(t) =>
      later := false;
      DecimalScans(t, rest, hexInt);
    case Hexadecimal(x, digits) =>
      later := true;
      HexesAreDigits(digits);
      HexadecimalScans(x, digits, rest, hexInt);
  }

  lemma DecimalScans(t: seq<byte>, rest: seq<byte>, hexInt: bool)
    requires t != [] && (t[0] == MINUS || IsDigit(t[0])) && All(t[1..], IsDigit) && Ends(rest)
    ensures Scan(FRESH.(hexInt := hexInt), t + rest) == Finished(IntegerParam(IntegerValue(t)), rest, false)
  {
    hide Scan, IntegerValue, Finished;
    ScanNext(FRESH.(hexInt := hexInt), t + rest);
    assert (t + rest)[1..] == t[1..] + rest;
    assert [t[0]] + t[1..] == t;
    DigitsScan(t[1..], [t[0]], rest);
    EntryEnds(Current(Integer, t, true, false), rest);
  }

  /** A zero, and the letter with something behind it: the base is 16 from here on. */
  lemma BaseScans(x: byte, more: seq<byte>, hexInt: bool)
    requires (x == LOWER_X || x == UPPER_X) && more != []
    ensures Scan(FRESH.(hexInt := hexInt), [ZERO] + ([x] + more)) == Scan(Current(Integer, [ZERO, x], false, true), more)
  {
    hide Scan, HexDigit;
    var one, text := Current(Integer, [ZERO], true, false), [x] + more;
    ScanNext(FRESH.(hexInt := hexInt), [ZERO] + text);
    assert ([ZERO] + text)[1..] == text;
    ScanNext(one, text);
    assert text[1..] == more && [ZERO] + [x] == [ZERO, x];
  }

  lemma HexadecimalScans(x: byte, digits: seq<byte>, rest: seq<byte>, hexInt: bool)
    requires (x == LOWER_X || x == UPPER_X) && digits != [] && All(digits, IsHex) && Ends(rest)
    ensures Scan(FRESH.(hexInt := hexInt), [ZERO, x] + digits + rest)
         == Finished(IntegerParam(IntegerValue([ZERO, x] + digits)), rest, true)
  {
    hide Scan, IntegerValue, Finished, All;
    BaseScans(x, digits + rest, hexInt);
    assert [ZERO, x] + digits + rest == [ZERO] + ([x] + (digits + rest));
    HexScan(digits, [ZERO, x], false, rest);
    EntryEnds(Current(Integer, [ZERO, x] + digits, true, true), rest);
  }

  /** The opened and filled string, behind its ending. */
  lemma EndingScans(e: Entry, kind: Kind, acc: seq<byte>, rest: seq<byte>, hexInt: bool)
    requires (kind == Ascii && e.body.Quoted?) || (kind == Hex && e.body.Bracketed? && |acc| % 2 == 0)
    requires Ends(rest) && (rest != [] ==> Complete(e))
    ensures Scan(Open(kind, acc, hexInt), EndingText(e) + rest)
         == Finished(if kind == Ascii then AsciiParam(acc) else HexParam(HexBytes(acc)), rest, hexInt)
  {
    hide Scan, Finished, HexBytes;
    match e.ending
    case Bare =>
      assert EndingText(e) + rest == rest;
      EntryEnds(Open(kind, acc, hexInt), rest);
    case Closing(n) =>
      var close := if e.body.Quoted? then QUOTE else RIGHT_BRACKET;
      assert EndingText(e) + rest == [close] + (Spaces(n) + rest);
      ClosingScans(close, kind, acc, Spaces(n) + rest, hexInt);
      SpacesScan(n, Closed(kind, acc, hexInt), rest);
      EntryEnds(Closed(kind, acc, hexInt), rest);
  }

  lemma EntryScans(e: Entry, rest: seq<byte>, hexInt: bool) returns (later: bool)
    requires LegalEntry(e) && Ends(rest) && (rest != [] ==> Complete(e))
    ensures Scan(FRESH.(hexInt := hexInt), EntryText(e) + rest) == Finished(ParamOf(e.body), rest, later)
  {
    hide Scan, Finished, Spaces, BodyText, EndingText, LegalBody, ParamOf;
    var more := EndingText(e) + rest;
    assert EntryText(e) + rest == Spaces(e.blanks) + (BodyText(e.body) + more);
    SpacesScan(e.blanks, FRESH.(hexInt := hexInt), BodyText(e.body) + more);
    later := BodyScans(e, rest, hexInt);
  }

  lemma BodyScans(e: Entry, rest: seq<byte>, hexInt: bool) returns (later: bool)
    requires LegalEntry(e) && Ends(rest) && (rest != [] ==> Complete(e))
    ensures Scan(FRESH.(hexInt := hexInt), BodyText(e.body) + (EndingText(e) + rest)) == Finished(ParamOf(e.body), rest, later)
  {
    hide Scan, Finished, AreDigits;
    later := hexInt;
    match e.body
    case Quoted(chars) => QuotedScans(e, chars, rest, hexInt);
    case Bracketed(digits) => BracketedScans(e, digits, rest, hexInt);
    case _ =>
      assert EndingText(e) + rest == rest;
      later := IntegerScans(e.body, rest, hexInt);
  }

  lemma QuotedScans(e: Entry, chars: seq<Char>, rest: seq<byte>, hexInt: bool)
    requires e.body == Quoted(chars) && LegalBody(e.body) && Ends(rest) && (rest != [] ==> Complete(e))
    ensures Scan(FRESH.(hexInt := hexInt), BodyText(e.body) + (EndingText(e) + rest))
         == Finished(AsciiParam(CharsValue(chars)), rest, hexInt)
  {
    hide Scan, Finished, CharsText, CharsValue, EndingText, LegalChar;
    var more := EndingText(e) + rest;
    assert BodyText(e.body) + more == [QUOTE] + (CharsText(chars) + more);
    OpeningScans(QUOTE, Ascii, CharsText(chars) + more, hexInt);
    CharsScan(chars, [], more, hexInt);
    assert [] + CharsValue(chars) == CharsValue(chars);
    EndingScans(e, Ascii, CharsValue(chars), rest, hexInt);
  }

  lemma BracketedScans(e: Entry, digits: seq<byte>, rest: seq<byte>, hexInt: bool)
    requires e.body == Bracketed(digits) && LegalBody(e.body) && Ends(rest) && (rest != [] ==> Complete(e))
    ensures Scan(FRESH.(hexInt := hexInt), BodyText(e.body) + (EndingText(e) + rest))
         == Finished(HexParam(HexBytes(digits)), rest, hexInt)
  {
    hide Scan, Finished, EndingText, HexBytes, All;
    var more := EndingText(e) + rest;
    assert BodyText(e.body) + more == [LEFT_BRACKET] + (digits + more);
    OpeningScans(LEFT_BRACKET, Hex, digits + more, hexInt);
    LettersAgree(digits);
    NibblesScan(digits, [], more, hexInt);
    assert [] + digits == digits;
    EndingScans(e, Hex, digits, rest, hexInt);
  }

  lemma {:induction false} LegalScans(entries: seq<Entry>, hexInt: bool)
    requires Legal(entries)
    ensures Scan(FRESH.(hexInt := hexInt), ListText(entries)) == Some(ParamsOf(entries))
    decreases |entries|
  {
    hide Scan, EntryText, ParamOf, LegalEntry, Complete;
    var rest := RestText(entries[1..]);
    var later := EntryScans(entries[0], rest, hexInt);
    if |entries| > 1 {
      assert rest[1..] == ListText(entries[1..]);
      LegalScans(entries[1..], later);
    }
  }

  // ----- And no other -----

  /** How many bytes at the start are of a kind. */
  function Leading(t: seq<byte>, p: byte -> bool): (n: nat)
    ensures n <= |t| && All(t[..n], p) && (n < |t| ==> !p(t[n]))
  {
    if t == [] || !p(t[0]) then 0
    else
      var n := 1 + Leading(t[1..], p);
      assert t[..n] == [t[0]] + t[1..][..n - 1];
      n
  }

  predicate IsSpace(c: byte) { c == SPACE }

  lemma LeadingSpaces(t: seq<byte>) returns (n: nat)
    ensures n <= |t| && t == Spaces(n) + t[n..] && (n < |t| ==> t[n] != SPACE)
  {
    n := Leading(t, IsSpace);
    assert forall i :: 0 <= i < n ==> t[i] == t[..n][i];
    assert t[..n] == Spaces(n);
  }

  /** How many bytes the character of a string at the start has; 0 if there is none. */
  function CharLength(t: seq<byte>): (n: nat)
    ensures n <= |t|
  {
    if t == [] then 0
    else if t[0] == BACKSLASH then if |t| > 1 && Escaped(t[1]).Some? then 2 else 0
    else if LegalChar(Itself(t[0])) then 1
    else 0
  }

  /** A string is not read on where there is none, unless it ends there. */
  lemma NoChar(t: seq<byte>, acc: seq<byte>, hexInt: bool)
    requires CharLength(t) == 0 && t != [] && t[0] != QUOTE
    ensures Next(Open(Ascii, acc, hexInt), t) == Reject
  {
    hide Escaped;
  }

  lemma FirstChar(t: seq<byte>) returns (c: Char)
    requires CharLength(t) > 0
    ensures LegalChar(c) && t == CharText(c) + t[CharLength(t)..]
  {
    hide Escaped, EscapeValue;
    if |t| > 1 {
      EscapesAgree(t[1]);
    }
    c := if CharLength(t) == 2 then Escape(t[1]) else Itself(t[0]);
  }

  /** The characters of a string as far as they go. */
  lemma {:induction false} LeadingChars(t: seq<byte>) returns (chars: seq<Char>, n: nat)
    ensures n <= |t| && t == CharsText(chars) + t[n..] && CharLength(t[n..]) == 0
    ensures forall i :: 0 <= i < |chars| ==> LegalChar(chars[i])
  {
    hide CharLength, LegalChar, CharText;
    var one := CharLength(t);
    if one == 0 {
      chars, n := [], 0;
      assert t[0..] == t && [] + t == t;
    } else {
      var c := FirstChar(t);
      var later, k := LeadingChars(t[one..]);
      chars, n := [c] + later, one + k;
      assert t[one..][k..] == t[n..];
      assert chars[1..] == later;
      assert CharText(c) + (CharsText(later) + t[n..]) == CharsText(chars) + t[n..];
    }
  }

  /** What stands behind a parameter that is complete. */
  lemma {:induction false} RestDerives(cur: Current, rest: seq<byte>) returns (entries: seq<Entry>)
    requires Proper(cur) && cur.expectCommas && Scan(cur, rest).Some?
    requires rest != [] ==> rest[0] == COMMA || Next(cur, rest).Reject?
    ensures rest == RestText(entries) && (entries != [] ==> Legal(entries))
    decreases |rest|, 0
  {
    hide Translate, Next;
    entries := [];
    if rest != [] {
      assert rest[0] == COMMA;
      entries := TextDerives(cur.hexInt, rest[1..]);
      assert rest == [COMMA] + rest[1..];
    }
  }

  /** Behind a string: its end, or its closing delimiter, blanks and the rest. */
  lemma {:induction false} EndingDerives(kind: Kind, acc: seq<byte>, text: seq<byte>, hexInt: bool, body: Body)
    returns (ending: Ending, entries: seq<Entry>)
    requires (kind == Ascii && body.Quoted?) || (kind == Hex && body.Bracketed?)
    requires Scan(Open(kind, acc, hexInt), text).Some?
    requires text != [] ==> text[0] == (if kind == Ascii then QUOTE else RIGHT_BRACKET)
    ensures text == EndingText(Entry(0, body, ending)) + RestText(entries)
    ensures entries != [] ==> ending.Closing? && Legal(entries)
    decreases |text|, 0
  {
    hide Scan, Spaces, Legal;
    if text == [] {
      ending, entries := Bare, [];
    } else {
      var close := text[0];
      assert text == [close] + text[1..];
      ClosingScans(close, kind, acc, text[1..], hexInt);
      var n := LeadingSpaces(text[1..]);
      var cur, rest := Closed(kind, acc, hexInt), text[1..][n..];
      SpacesScan(n, cur, rest);
      entries := RestDerives(cur, rest);
      ending := Closing(n);
      assert text == ([close] + Spaces(n)) + rest;
    }
  }

  lemma {:induction false} QuotedDerives(text: seq<byte>, hexInt: bool) returns (e: Entry, entries: seq<Entry>)
    requires Scan(Open(Ascii, [], hexInt), text).Some?
    ensures e.blanks == 0 && LegalEntry(e) && [QUOTE] + text == BodyText(e.body) + EndingText(e) + RestText(entries)
    ensures entries != [] ==> Complete(e) && Legal(entries)
    decreases |text|, 1
  {
    hide Scan, Spaces, Legal, LegalChar, CharsText, RestText, CharsValue;
    var chars, n := LeadingChars(text);
    CharsScan(chars, [], text[n..], hexInt);
    var acc := [] + CharsValue(chars);
    if n < |text| && text[n] != QUOTE {
      NoChar(text[n..], acc, hexInt);
      ScanNext(Open(Ascii, acc, hexInt), text[n..]);
    }
    var body := Quoted(chars);
    var ending;
    ending, entries := EndingDerives(Ascii, acc, text[n..], hexInt, body);
    e := Entry(0, body, ending);
    assert [QUOTE] + text == [QUOTE] + CharsText(chars) + (EndingText(e) + RestText(entries));
  }

  lemma {:induction false} BracketedDerives(text: seq<byte>, hexInt: bool) returns (e: Entry, entries: seq<Entry>)
    requires Scan(Open(Hex, [], hexInt), text).Some?
    ensures e.blanks == 0 && LegalEntry(e) && [LEFT_BRACKET] + text == BodyText(e.body) + EndingText(e) + RestText(entries)
    ensures entries != [] ==> Complete(e) && Legal(entries)
    decreases |text|, 1
  {
    hide Scan, Spaces, Legal, RestText, IsAlphanumeric;
    var n := Leading(text, IsAlphanumeric);
    var digits := text[..n];
    assert text == digits + text[n..];
    NibblesScan(digits, [], text[n..], hexInt);
    assert [] + digits == digits;
    if n < |text| {
      ScanNext(Open(Hex, digits, hexInt), text[n..]);
    }
    LettersAgree(digits);
    var body := Bracketed(digits);
    var ending;
    ending, entries := EndingDerives(Hex, digits, text[n..], hexInt, body);
    e := Entry(0, body, ending);
    assert [LEFT_BRACKET] + text == [LEFT_BRACKET] + digits + (EndingText(e) + RestText(entries));
    RestEnds(entries);
    EvenNibbles(e, digits, RestText(entries), hexInt);
  }

  lemma RestEnds(entries: seq<Entry>)
    ensures Ends(RestText(entries)) && (RestText(entries) == [] <==> entries == [])
  {
  }

  /** An odd number of digits between brackets is refused. */
  lemma EvenNibbles(e: Entry, digits: seq<byte>, rest: seq<byte>, hexInt: bool)
    requires e.body.Bracketed? && Ends(rest) && (rest != [] ==> Complete(e))
    requires Scan(Open(Hex, digits, hexInt), EndingText(e) + rest).Some?
    ensures |digits| % 2 == 0
  {
    hide Spaces;
    match e.ending
    case Bare =>
      assert EndingText(e) + rest == rest;
    case Closing(n) =>
      assert EndingText(e) + rest == [RIGHT_BRACKET] + (Spaces(n) + rest);
      ClosingScans(RIGHT_BRACKET, Hex, digits, Spaces(n) + rest, hexInt);
      SpacesScan(n, Closed(Hex, digits, hexInt), rest);
  }

  lemma {:induction false} HexadecimalDerives(x: byte, text: seq<byte>) returns (e: Entry, entries: seq<Entry>)
    requires (x == LOWER_X || x == UPPER_X) && text != [] && Scan(Current(Integer, [ZERO, x], false, true), text).Some?
    ensures e.blanks == 0 && LegalEntry(e) && Complete(e)
    ensures [ZERO, x] + text == BodyText(e.body) + EndingText(e) + RestText(entries) && (entries != [] ==> Legal(entries))
    decreases |text|, 1
  {
    hide Scan, Legal, RestText, HexDigit, IsHex;
    var n := Leading(text, IsHex);
    var digits, rest := text[..n], text[n..];
    assert text == digits + rest;
    HexScan(digits, [ZERO, x], false, rest);
    var cur := Current(Integer, [ZERO, x] + digits, digits != [], true);
    CommaIsNoHex();
    HexStops(cur, rest);
    entries := RestDerives(cur, rest);
    HexesAreDigits(digits);
    e := Entry(0, Hexadecimal(x, digits), Bare);
    assert [ZERO, x] + text == [ZERO, x] + digits + [] + rest;
  }

  /** Behind hexadecimal digits only a comma goes on, and not without any digits. */
  lemma HexStops(cur: Current, rest: seq<byte>)
    requires cur.kind == Integer && cur.hexInt && |cur.text| >= 2 && (rest != [] ==> !IsHex(rest[0])) && Scan(cur, rest).Some?
    requires !cur.expectCommas ==> |cur.text| == 2 && cur.text[1] in {LOWER_X, UPPER_X} && cur.text[0] == ZERO
    ensures rest != [] ==> cur.expectCommas && rest[0] == COMMA
  {
    if rest != [] && !Separates(cur, rest[0]) {
      ScanNext(cur, rest);
    }
  }

  lemma {:induction false} DecimalDerives(first: byte, text: seq<byte>) returns (e: Entry, entries: seq<Entry>)
    requires first == MINUS || IsDigit(first)
    requires !(first == ZERO && |text| > 1 && (text[0] == LOWER_X || text[0] == UPPER_X))
    requires Scan(Current(Integer, [first], true, false), text).Some?
    ensures e.blanks == 0 && LegalEntry(e) && Complete(e)
    ensures [first] + text == BodyText(e.body) + EndingText(e) + RestText(entries) && (entries != [] ==> Legal(entries))
    decreases |text|, 1
  {
    hide Scan, Legal, RestText, IsDigit;
    var n := Leading(text, IsDigit);
    var digits, rest := text[..n], text[n..];
    assert text == digits + rest;
    DigitsScan(digits, [first], rest);
    var cur := Current(Integer, [first] + digits, true, false);
    if rest != [] && rest[0] != COMMA {
      ScanNext(cur, rest);
    }
    entries := RestDerives(cur, rest);
    e := Entry(0, Decimal([first] + digits), Bare);
    assert ([first] + digits)[1..] == digits;
    assert [first] + text == [first] + digits + [] + rest;
  }

  lemma {:induction false} IntegerDerives(text: seq<byte>, hexInt: bool) returns (e: Entry, entries: seq<Entry>)
    requires text != [] && (text[0] == MINUS || IsDigit(text[0])) && Scan(FRESH.(hexInt := hexInt), text).Some?
    ensures e.blanks == 0 && LegalEntry(e) && Complete(e)
    ensures text == BodyText(e.body) + EndingText(e) + RestText(entries) && (entries != [] ==> Legal(entries))
    decreases |text|, 1
  {
    hide Scan, Legal, LegalEntry, BodyText, EndingText, RestText, Complete;
    ScanNext(FRESH.(hexInt := hexInt), text);
    var first, rest := text[0], text[1..];
    var one := Current(Integer, [first], true, false);
    assert text == [first] + rest;
    if first == ZERO && |rest| > 1 && (rest[0] == LOWER_X || rest[0] == UPPER_X) {
      ScanNext(one, rest);
      var x := rest[0];
      assert [ZERO] + [x] == [ZERO, x] && text == [ZERO, x] + rest[1..];
      e, entries := HexadecimalDerives(x, rest[1..]);
    } else {
      e, entries := DecimalDerives(first, rest);
    }
  }

  /** Every text that is accepted is one of the grammar's. */
  lemma {:induction false} TextDerives(hexInt: bool, text: seq<byte>) returns (entries: seq<Entry>)
    requires Scan(FRESH.(hexInt := hexInt), text).Some?
    ensures Legal(entries) && ListText(entries) == text
    decreases |text|, 3
  {
    hide Scan, Spaces, Legal, ListText, BodyText, EndingText, RestText, LegalEntry, Complete;
    var n := LeadingSpaces(text);
    SpacesScan(n, FRESH.(hexInt := hexInt), text[n..]);
    var e, later := FirstDerives(hexInt, text[n..]);
    entries := [e.(blanks := n)] + later;
    BehindBlanks(n, e, later);
    assert text == Spaces(n) + (BodyText(e.body) + EndingText(e) + RestText(later));
  }

  lemma {:induction false} FirstDerives(hexInt: bool, text: seq<byte>) returns (e: Entry, entries: seq<Entry>)
    requires Scan(FRESH.(hexInt := hexInt), text).Some? && (text != [] ==> text[0] != SPACE)
    ensures LegalEntry(e) && text == BodyText(e.body) + EndingText(e) + RestText(entries)
    ensures entries != [] ==> Complete(e) && Legal(entries)
    decreases |text|, 2
  {
    hide Scan, Legal, BodyText, EndingText, RestText, LegalEntry, Complete;
    var cur := FRESH.(hexInt := hexInt);
    if Ends(text) {
      NothingRead(cur, text);
    }
    ScanNext(cur, text);
    if text[0] == QUOTE {
      assert text == [QUOTE] + text[1..];
      OpeningScans(QUOTE, Ascii, text[1..], hexInt);
      e, entries := QuotedDerives(text[1..], hexInt);
    } else if text[0] == LEFT_BRACKET {
      assert text == [LEFT_BRACKET] + text[1..];
      OpeningScans(LEFT_BRACKET, Hex, text[1..], hexInt);
      e, entries := BracketedDerives(text[1..], hexInt);
    } else {
      e, entries := IntegerDerives(text, hexInt);
    }
  }

  lemma BehindBlanks(n: nat, e: Entry, later: seq<Entry>)
    requires LegalEntry(e) && (later != [] ==> Complete(e) && Legal(later))
    ensures Legal([e.(blanks := n)] + later)
    ensures ListText([e.(blanks := n)] + later) == Spaces(n) + (BodyText(e.body) + EndingText(e) + RestText(later))
  {
    hide Spaces, LegalBody, BodyText, RestText;
    var entries := [e.(blanks := n)] + later;
    assert entries[1..] == later;
    assert EndingText(e) == EndingText(entries[0]);
    assert Spaces(n) + (BodyText(e.body) + EndingText(e)) + RestText(later)
        == Spaces(n) + (BodyText(e.body) + EndingText(e) + RestText(later));
  }

  lemma NothingRead(cur: Current, text: seq<byte>)
    requires cur.kind == Unknown && cur.text == [] && cur.expectCommas && Ends(text)
    ensures Scan(cur, text).None?
  {
  }

  ghost predicate StandsFor(text: seq<byte>, params: seq<Param>) {
    exists entries :: Legal(entries) && ListText(entries) == text && ParamsOf(entries) == params
  }

  /** The parser accepts exactly the texts of the grammar, and reads them as what they stand for. */
  lemma ParsesTheGrammar(text: seq<byte>, params: seq<Param>)
    ensures Parameters(text) == Some(params) <==> StandsFor(text, params)
  {
    hide Scan, Legal, ListText, ParamsOf;
    if Parameters(text) == Some(params) {
      var entries := TextDerives(false, text);
      LegalScans(entries, false);
    }
    if StandsFor(text, params) {
      var entries :| Legal(entries) && ListText(entries) == text && ParamsOf(entries) == params;
      LegalScans(entries, false);
      NothingRead(FRESH, []);
    }
  }

  // ----- What is surprising about it -----

  /** Between brackets, closed or not, letters beyond F count as the digit 0. */
  lemma LettersReadAsZero(digits: seq<byte>, closed: bool, k: nat)
    requires All(digits, LetterOrDigit) && |digits| % 2 == 0 && 2 * k + 1 < |digits|
    ensures Parameters([LEFT_BRACKET] + digits + (if closed then [RIGHT_BRACKET] else [])) == Some([HexParam(HexBytes(digits))])
    ensures var high, low := HexDigit(digits[2 * k]), HexDigit(digits[2 * k + 1]);
            HexBytes(digits)[k] == 16 * (if high < 0 then 0 else high) + (if low < 0 then 0 else low)
  {
    hide All, Parameters, HexBytes, HexDigit;
    HexBytesAt(digits, k);
    BracketsRead(digits, closed);
  }

  lemma BracketsRead(digits: seq<byte>, closed: bool)
    requires All(digits, LetterOrDigit) && |digits| % 2 == 0
    ensures Parameters([LEFT_BRACKET] + digits + (if closed then [RIGHT_BRACKET] else [])) == Some([HexParam(HexBytes(digits))])
  {
    hide Scan, HexBytes, LetterOrDigit, Finished;
    var e := Entry(0, Bracketed(digits), if closed then Closing(0) else Bare);
    var text := [LEFT_BRACKET] + digits + (if closed then [RIGHT_BRACKET] else []);
    assert EntryText(e) + [] == text;
    var later := EntryScans(e, [], false);
    ListOfOne(HexParam(HexBytes(digits)), later);
  }

  /** Complete parameters and commas in front of something refused do not help. */
  lemma {:induction false} FrontScans(front: seq<Entry>, text: seq<byte>, hexInt: bool)
    requires forall i :: 0 <= i < |front| ==> LegalEntry(front[i]) && Complete(front[i])
    requires forall h :: Scan(FRESH.(hexInt := h), text).None?
    ensures Scan(FRESH.(hexInt := hexInt), FrontText(front) + text).None?
    decreases |front|
  {
    hide Scan, EntryText, ParamOf, LegalEntry, Complete;
    if front == [] {
      assert FrontText(front) + text == text;
    } else {
      var rest := [COMMA] + (FrontText(front[1..]) + text);
      assert FrontText(front) + text == EntryText(front[0]) + rest;
      var later := EntryScans(front[0], rest, hexInt);
      assert rest[1..] == FrontText(front[1..]) + text;
      FrontScans(front[1..], text, later);
    }
  }

  /** Parameters, each with the comma behind it. */
  function FrontText(front: seq<Entry>): seq<byte> {
    if front == [] then [] else EntryText(front[0]) + [COMMA] + FrontText(front[1..])
  }

  /** Wherever it stands, a blank behind an integer and an empty parameter, with blanks or without, refuse the whole text. */
  lemma BlanksAndGapsAreRefused(front: seq<Entry>, b: Body, n: nat, rest: seq<byte>)
    requires forall i :: 0 <= i < |front| ==> LegalEntry(front[i]) && Complete(front[i])
    requires LegalBody(b) && !IsString(b)
    ensures Parameters(FrontText(front) + (BodyText(b) + ([SPACE] + rest))).None?
    ensures Parameters(FrontText(front) + Spaces(n)).None?
    ensures Parameters(FrontText(front) + (Spaces(n) + ([COMMA] + rest))).None?
  {
    hide Scan, LegalBody, LegalEntry, Complete, FrontText, BodyText, Spaces;
    forall h ensures Scan(FRESH.(hexInt := h), BodyText(b) + ([SPACE] + rest)).None? {
      IntegerThenBlank(b, rest, h);
    }
    forall h ensures Scan(FRESH.(hexInt := h), Spaces(n)).None? {
      SpacesScan(n, FRESH.(hexInt := h), []);
      assert Spaces(n) + [] == Spaces(n);
      NothingRead(FRESH.(hexInt := h), []);
    }
    forall h ensures Scan(FRESH.(hexInt := h), Spaces(n) + ([COMMA] + rest)).None? {
      SpacesScan(n, FRESH.(hexInt := h), [COMMA] + rest);
      NothingRead(FRESH.(hexInt := h), [COMMA] + rest);
    }
    FrontScans(front, BodyText(b) + ([SPACE] + rest), false);
    FrontScans(front, Spaces(n), false);
    FrontScans(front, Spaces(n) + ([COMMA] + rest), false);
  }

  lemma IntegerThenBlank(b: Body, rest: seq<byte>, hexInt: bool)
    requires LegalBody(b) && !IsString(b)
    ensures Scan(FRESH.(hexInt := hexInt), BodyText(b) + ([SPACE] + rest)).None?
  {
    hide Scan, HexDigit, AreDigits;
    match b
    case Decimal(t) => DecimalThenBlank(t, rest, hexInt);
    case Hexadecimal(x, digits) =>
      HexesAreDigits(digits);
      HexadecimalThenBlank(x, digits, rest, hexInt);
  }

  lemma DecimalThenBlank(t: seq<byte>, rest: seq<byte>, hexInt: bool)
    requires t != [] && (t[0] == MINUS || IsDigit(t[0])) && All(t[1..], IsDigit)
    ensures Scan(FRESH.(hexInt := hexInt), t + ([SPACE] + rest)).None?
  {
    hide Scan;
    var blank := [SPACE] + rest;
    ScanNext(FRESH.(hexInt := hexInt), t + blank);
    assert (t + blank)[1..] == t[1..] + blank && [t[0]] + t[1..] == t;
    DigitsScan(t[1..], [t[0]], blank);
    ScanNext(Current(Integer, t, true, false), blank);
  }

  lemma HexadecimalThenBlank(x: byte, digits: seq<byte>, rest: seq<byte>, hexInt: bool)
    requires (x == LOWER_X || x == UPPER_X) && digits != [] && All(digits, IsHex)
    ensures Scan(FRESH.(hexInt := hexInt), [ZERO, x] + digits + ([SPACE] + rest)).None?
  {
    hide Scan, All;
    var blank := [SPACE] + rest;
    assert [ZERO, x] + digits + blank == [ZERO] + ([x] + (digits + blank));
    BaseScans(x, digits + blank, hexInt);
    HexScan(digits, [ZERO, x], false, blank);
    BlankIsNoHex();
    ScanNext(Current(Integer, [ZERO, x] + digits, true, true), blank);
  }

  lemma BlankIsNoHex()
    ensures !IsHex(SPACE)
  {
  }

  /** Every number up to 2^32 - 1 comes back from its hexadecimal digits, in either case and behind any zeros, and from its
      octal digits behind a zero; a larger one as 2^32 - 1, and with a minus sign none below -2^31. */
  lemma BasesReadBack(n: nat, zeros: nat, x: byte, upper: bool)
    requires x == 120 || x == 88
    ensures Parameters([48, x] + (Zeros(zeros) + WrittenIn(n, 16, upper))) == Some([IntegerParam(AtMost(n))])
    ensures Parameters(Zeros(zeros + 1) + WrittenIn(n, 8, false)) == Some([IntegerParam(AtMost(n))])
    ensures Parameters([45] + (Zeros(zeros + 1) + WrittenIn(n, 8, false))) == Some([IntegerParam(AtLeast(-(n as int)))])
  {
    hide Parameters, WrittenIn, AreDigits, Place, DecimalValue, HexadecimalValue, All;
    HexadecimalMeansItself(n, zeros, upper);
    var digits, t := Zeros(zeros) + WrittenIn(n, 16, upper), Zeros(zeros + 1) + WrittenIn(n, 8, false);
    OctalMeansItself(n, zeros + 1);
    IntegerReads(Hexadecimal(x, digits));
    TenIsDigits(t);
    IntegerReads(Decimal(t));
    IntegerReads(Decimal([45] + t));
  }

  lemma TenIsDigits(t: seq<byte>)
    requires t != [] && AreDigits(t, 10)
    ensures IsDigit(t[0]) && All(t[1..], IsDigit) && ([45] + t)[1..] == t && All(t, IsDigit)
  {
    forall i | 0 <= i < |t| ensures IsDigit(t[i]) { assert 0 <= DigitOf(t[i]) < 10; }
  }

  /** An integer alone is read as what it means. */
  lemma IntegerReads(b: Body)
    requires LegalBody(b) && !IsString(b)
    ensures Parameters(BodyText(b)) == Some([ParamOf(b)])
  {
    hide Scan, LegalBody, ParamOf, Finished;
    var later := IntegerScans(b, [], false);
    ListOfOne(ParamOf(b), later);
    assert BodyText(b) + [] == BodyText(b);
    IntegerHasText(b);
  }

  lemma IntegerHasText(b: Body)
    requires LegalBody(b) && !IsString(b)
    ensures BodyText(b) != []
  {
  }
}
