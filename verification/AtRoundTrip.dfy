/**
 The parameter parser undoes the string printers: which texts read back, and exactly when.
 */
module AtRoundTrip {
  import opened Bytes
  import opened AtParameters
  import opened AtPrinter
  import opened JsonValue

  /** A string parameter behind its closing delimiter. */
  function Closed(kind: Kind, text: seq<byte>, hexInt: bool): Current {
    Current(kind, text, true, hexInt)
  }

  function Open(kind: Kind, text: seq<byte>, hexInt: bool): Current {
    Current(kind, text, false, hexInt)
  }

  /** A finished parameter, and what follows it: nothing, or a comma and more. */
  function Finished(p: Param, rest: seq<byte>, hexInt: bool): Option<seq<Param>>
    requires rest == [] || rest[0] == COMMA
  {
    Listed(Some(p), if rest == [] then Some([]) else Scan(FRESH.(hexInt := hexInt), rest[1..]))
  }

  predicate Ends(rest: seq<byte>) {
    rest == [] || rest[0] == COMMA
  }

  lemma ScanEnd(cur: Current, rest: seq<byte>)
    requires Proper(cur) && cur.expectCommas && Ends(rest) && Translate(cur).Some?
    ensures Scan(cur, rest) == Finished(Translate(cur).value, rest, cur.hexInt)
  {
    hide Translate, Next;
  }

  lemma ScanNext(cur: Current, text: seq<byte>)
    requires Proper(cur) && text != [] && !Separates(cur, text[0])
    ensures Next(cur, text).Reject? ==> Scan(cur, text).None?
    ensures Next(cur, text).Continue? ==> Scan(cur, text) == Scan(Next(cur, text).cur, text[Next(cur, text).taken..])
  {
    hide Next;
  }

  // ----- Escaped strings -----

  predicate Returnable(b: byte) {
    IsDisplayable(b) || Control(b)
  }

  predicate AllReturnable(s: seq<byte>) {
    forall i | 0 <= i < |s| :: Returnable(s[i])
  }

  /** The bytes the escaping printer has a form for. */
  function Shown(s: seq<byte>): (t: seq<byte>)
    ensures |t| <= |s|
  {
    if s == [] then [] else (if Returnable(s[0]) then [s[0]] else []) + Shown(s[1..])
  }

  /** An escape in an open string is read as the byte it was made from; `\0` is refused. */
  lemma EscapeScans(b: byte, acc: seq<byte>, rest: seq<byte>, hexInt: bool)
    ensures b == NUL ==> Scan(Open(Ascii, acc, hexInt), EscapeOf(b) + rest).None?
    ensures Returnable(b) ==>
              Scan(Open(Ascii, acc, hexInt), EscapeOf(b) + rest) == Scan(Open(Ascii, acc + [b], hexInt), rest)
    ensures b != NUL && !Returnable(b) ==> EscapeOf(b) == []
  {
    hide Scan, Next;
    var cur, text := Open(Ascii, acc, hexInt), EscapeOf(b) + rest;
    if b == NUL || Returnable(b) {
      ScanNext(cur, text);
      EscapeNext(b, acc, rest, hexInt);
      if b != NUL {
        assert text[|EscapeOf(b)|..] == rest;
      }
    }
  }

  lemma EscapeNext(b: byte, acc: seq<byte>, rest: seq<byte>, hexInt: bool)
    requires b == NUL || Returnable(b)
    ensures EscapeOf(b) != []
    ensures Next(Open(Ascii, acc, hexInt), EscapeOf(b) + rest)
         == if b == NUL then Reject else Continue(Open(Ascii, acc + [b], hexInt), |EscapeOf(b)|)
  {
  }

  lemma {:induction false} EscapesScan(s: seq<byte>, acc: seq<byte>, rest: seq<byte>, hexInt: bool)
    ensures Scan(Open(Ascii, acc, hexInt), Escapes(s) + rest)
         == if HasNul(s) then None else Scan(Open(Ascii, acc + Shown(s), hexInt), rest)
    decreases |s|
  {
    hide Scan, EscapeOf, Returnable, HasNul, Escapes, Shown;
    if s == [] {
      NothingEscaped(acc, rest);
    } else {
      var b, later, more := s[0], s[1..], Escapes(s[1..]) + rest;
      EscapesSplit(s, rest);
      ShownSplit(s, acc);
      NulSplit(s);
      EscapeScans(b, acc, more, hexInt);
      NulNotReturnable();
      if b != NUL && Returnable(b) {
        EscapesScan(later, acc + [b], rest, hexInt);
      } else if b != NUL {
        EscapesScan(later, acc, rest, hexInt);
      }
    }
  }

  predicate HasNul(s: seq<byte>) {
    NUL in s
  }

  lemma NothingEscaped(acc: seq<byte>, rest: seq<byte>)
    ensures Escapes([]) + rest == rest && acc + Shown([]) == acc && !HasNul([])
  {
  }

  lemma EscapesSplit(s: seq<byte>, rest: seq<byte>)
    requires s != []
    ensures Escapes(s) + rest == EscapeOf(s[0]) + (Escapes(s[1..]) + rest)
    ensures EscapeOf(s[0]) == [] ==> Escapes(s) + rest == Escapes(s[1..]) + rest
  {
    hide EscapeOf, Returnable;
  }

  lemma ShownSplit(s: seq<byte>, acc: seq<byte>)
    requires s != []
    ensures acc + Shown(s) == if Returnable(s[0]) then acc + [s[0]] + Shown(s[1..]) else acc + Shown(s[1..])
  {
    hide EscapeOf, Returnable;
    assert acc + ([s[0]] + Shown(s[1..])) == acc + [s[0]] + Shown(s[1..]);
    assert [] + Shown(s[1..]) == Shown(s[1..]);
  }

  lemma NulSplit(s: seq<byte>)
    requires s != []
    ensures HasNul(s) <==> s[0] == NUL || HasNul(s[1..])
  {
    assert s == [s[0]] + s[1..];
  }

  lemma NulNotReturnable()
    ensures !Returnable(NUL)
  {
  }

  lemma OpeningScans(open: byte, kind: Kind, rest: seq<byte>, hexInt: bool)
    requires (open == QUOTE && kind == Ascii) || (open == LEFT_BRACKET && kind == Hex)
    ensures Scan(FRESH.(hexInt := hexInt), [open] + rest) == Scan(Open(kind, [], hexInt), rest)
  {
    hide Scan;
    var text := [open] + rest;
    ScanNext(FRESH.(hexInt := hexInt), text);
    assert text[1..] == rest;
  }

  lemma ClosingScans(close: byte, kind: Kind, acc: seq<byte>, rest: seq<byte>, hexInt: bool)
    requires (close == QUOTE && kind == Ascii) || (close == RIGHT_BRACKET && kind == Hex)
    ensures Scan(Open(kind, acc, hexInt), [close] + rest) == Scan(Closed(kind, acc, hexInt), rest)
  {
    hide Scan;
    var text := [close] + rest;
    ScanNext(Open(kind, acc, hexInt), text);
    assert text[1..] == rest;
  }

  /** Every string: the escaped form reads back as the bytes that have a form, unless it holds a NUL. */
  lemma EscapedReadsBack(s: seq<byte>, rest: seq<byte>, hexInt: bool)
    requires Ends(rest)
    ensures Scan(FRESH.(hexInt := hexInt), EscapedText(s) + rest)
         == if HasNul(s) then None else Finished(AsciiParam(Shown(s)), rest, hexInt)
  {
    hide Scan, Escapes, Shown, Finished, HasNul;
    OpeningScans(QUOTE, Ascii, Escapes(s) + ([QUOTE] + rest), hexInt);
    assert EscapedText(s) + rest == [QUOTE] + (Escapes(s) + ([QUOTE] + rest));
    EscapesScan(s, [], [QUOTE] + rest, hexInt);
    assert [] + Shown(s) == Shown(s);
    ClosingScans(QUOTE, Ascii, Shown(s), rest, hexInt);
    ScanEnd(Closed(Ascii, Shown(s), hexInt), rest);
  }

  lemma {:induction false} ShownIsAll(s: seq<byte>)
    ensures Shown(s) == s <==> AllReturnable(s)
  {
    hide Returnable;
    if s != [] {
      ShownIsAll(s[1..]);
      assert AllReturnable(s) <==> Returnable(s[0]) && AllReturnable(s[1..]) by { AllSplit(s); }
      if Returnable(s[0]) {
        assert Shown(s)[1..] == Shown(s[1..]);
        assert s == [s[0]] + s[1..];
      }
    }
  }

  lemma AllSplit(s: seq<byte>)
    requires s != []
    ensures AllReturnable(s) <==> Returnable(s[0]) && AllReturnable(s[1..])
  {
    assert s == [s[0]] + s[1..];
  }

  lemma ListOfOne(p: Param, hexInt: bool)
    ensures Finished(p, [], hexInt) == Some([p])
  {
    assert [p] + [] == [p];
  }

  /** The escaped form of a string parses back to it exactly when every byte is displayable, 0x07 to 0x0d, or escape. */
  lemma EscapedRoundTrip(s: seq<byte>)
    ensures Parameters(EscapedText(s)) == Some([AsciiParam(s)]) <==> AllReturnable(s)
  {
    hide Scan, EscapedText, Shown, Finished, Returnable;
    EscapedReadsBack(s, [], false);
    assert EscapedText(s) + [] == EscapedText(s) && |EscapedText(s)| > 0 by { EscapedNotEmpty(s); }
    ListOfOne(AsciiParam(Shown(s)), false);
    ShownIsAll(s);
    NulNotReturnable();
  }

  lemma EscapedNotEmpty(s: seq<byte>)
    ensures |EscapedText(s)| > 0
  {
  }

  // ----- Hexadecimal strings -----

  lemma {:induction false} HexDigitsScan(s: seq<byte>, acc: seq<byte>, rest: seq<byte>, hexInt: bool)
    ensures Scan(Open(Hex, acc, hexInt), HexDigits(s) + rest) == Scan(Open(Hex, acc + HexDigits(s), hexInt), rest)
    decreases |s|
  {
    hide Scan, ByteText;
    if s == [] {
      assert HexDigits(s) + rest == rest && acc + HexDigits(s) == acc;
    } else {
      var more := HexDigits(s[1..]) + rest;
      assert HexDigits(s) + rest == ByteText(s[0]) + more;
      ByteTextScans(s[0], acc, more, hexInt);
      HexDigitsScan(s[1..], acc + ByteText(s[0]), rest, hexInt);
      assert acc + ByteText(s[0]) + HexDigits(s[1..]) == acc + HexDigits(s);
    }
  }

  lemma ByteTextScans(b: byte, acc: seq<byte>, rest: seq<byte>, hexInt: bool)
    ensures Scan(Open(Hex, acc, hexInt), ByteText(b) + rest) == Scan(Open(Hex, acc + ByteText(b), hexInt), rest)
  {
    hide Scan, NibbleChar;
    var x, y := NibbleChar(b / 16), NibbleChar(b % 16);
    NibbleScans(x, acc, [y] + rest, hexInt);
    NibbleScans(y, acc + [x], rest, hexInt);
    assert ByteText(b) + rest == [x] + ([y] + rest);
    assert acc + [x] + [y] == acc + ByteText(b);
  }

  lemma NibbleScans(c: byte, acc: seq<byte>, rest: seq<byte>, hexInt: bool)
    requires IsAlphanumeric(c)
    ensures Scan(Open(Hex, acc, hexInt), [c] + rest) == Scan(Open(Hex, acc + [c], hexInt), rest)
  {
    hide Scan;
    var text := [c] + rest;
    ScanNext(Open(Hex, acc, hexInt), text);
    assert text[1..] == rest;
  }

  lemma {:induction false} HexDigitsReadBack(s: seq<byte>)
    ensures HexBytes(HexDigits(s)) == s
  {
    hide ByteText, PairToByte;
    if s != [] {
      HexDigitsReadBack(s[1..]);
      assert HexDigits(s)[2..] == HexDigits(s[1..]);
      ByteReadsBack(s[0]);
      assert HexDigits(s)[0] == ByteText(s[0])[0] && HexDigits(s)[1] == ByteText(s[0])[1];
    }
  }

  lemma ByteReadsBack(b: byte)
    ensures PairToByte(ByteText(b)[0], ByteText(b)[1]) == b
  {
    hide NibbleChar, HexDigit;
  }

  /** Every byte string: the bracketed form reads back as it. */
  lemma HexReadsBack(s: seq<byte>, rest: seq<byte>, hexInt: bool)
    requires Ends(rest)
    ensures Scan(FRESH.(hexInt := hexInt), HexText(s) + rest) == Finished(HexParam(s), rest, hexInt)
  {
    hide Scan, HexDigits, Finished, HexBytes;
    OpeningScans(LEFT_BRACKET, Hex, HexDigits(s) + ([RIGHT_BRACKET] + rest), hexInt);
    assert HexText(s) + rest == [LEFT_BRACKET] + (HexDigits(s) + ([RIGHT_BRACKET] + rest));
    HexDigitsScan(s, [], [RIGHT_BRACKET] + rest, hexInt);
    assert [] + HexDigits(s) == HexDigits(s);
    ClosingScans(RIGHT_BRACKET, Hex, HexDigits(s), rest, hexInt);
    HexDigitsReadBack(s);
    ScanEnd(Closed(Hex, HexDigits(s), hexInt), rest);
  }

  lemma HexRoundTrip(s: seq<byte>)
    ensures Parameters(HexText(s)) == Some([HexParam(s)])
  {
    hide Scan, HexText, Finished;
    HexReadsBack(s, [], false);
    ListOfOne(HexParam(s), false);
    assert HexText(s) + [] == HexText(s) && |HexText(s)| > 0 by { HexNotEmpty(s); }
  }

  lemma HexNotEmpty(s: seq<byte>)
    ensures |HexText(s)| > 0
  {
  }

  // ----- The safe printer -----

  predicate NoneMarked(s: seq<byte>) {
    forall i | 0 <= i < |s| :: !Marked(s[i])
  }

  lemma PlainByteScans(b: byte, acc: seq<byte>, rest: seq<byte>)
    requires IsDisplayable(b) && !Marked(b)
    ensures Scan(Open(Ascii, acc, false), [b] + rest) == Scan(Open(Ascii, acc + [b], false), rest)
  {
    hide Scan;
    var text := [b] + rest;
    ScanNext(Open(Ascii, acc, false), text);
    assert text[1..] == rest;
  }

  /** Bytes that need no escape stand for themselves. */
  lemma {:induction false} PlainScans(s: seq<byte>, acc: seq<byte>, rest: seq<byte>)
    requires AllDisplayable(s) && NoneMarked(s)
    ensures Scan(Open(Ascii, acc, false), s + rest) == Scan(Open(Ascii, acc + s, false), rest)
    decreases |s|
  {
    hide Scan, IsDisplayable, Marked;
    if s == [] {
      assert s + rest == rest && acc + s == acc;
    } else {
      assert s + rest == [s[0]] + (s[1..] + rest);
      PlainByteScans(s[0], acc, s[1..] + rest);
      PlainScans(s[1..], acc + [s[0]], rest);
      assert acc + [s[0]] + s[1..] == acc + s;
    }
  }

  lemma {:induction false} ScanNotEmpty(cur: Current, text: seq<byte>)
    requires Proper(cur)
    ensures Scan(cur, text) != Some([])
    decreases |text|
  {
    hide Next, Translate;
    if text != [] && !Separates(cur, text[0]) && Next(cur, text).Continue? {
      ScanNotEmpty(Next(cur, text).cur, text[Next(cur, text).taken..]);
    }
  }

  /** Behind its closing quote a string grows no more. */
  lemma {:induction false} ClosedStays(acc: seq<byte>, text: seq<byte>, p: Param)
    requires Scan(Closed(Ascii, acc, false), text) == Some([p])
    ensures p == AsciiParam(acc)
    decreases |text|
  {
    var cur := Closed(Ascii, acc, false);
    if text == [] {
      assert Scan(cur, text).value[0] == AsciiParam(acc);
    } else if Separates(cur, text[0]) {
      ScanNotEmpty(FRESH, text[1..]);
    } else {
      ClosedStays(acc, text[1..], p);
    }
  }

  /** An open string gains fewer bytes than a text that ends with a quote has. */
  lemma {:induction false} QuoteCosts(acc: seq<byte>, text: seq<byte>, p: Param)
    requires text != [] && text[|text| - 1] == QUOTE && Scan(Open(Ascii, acc, false), text) == Some([p])
    ensures p.AsciiParam? && |p.text| < |acc| + |text|
    decreases |text|
  {
    hide Scan, Escaped;
    var cur := Open(Ascii, acc, false);
    ScanNext(cur, text);
    var next := Next(cur, text);
    if text[0] == QUOTE {
      ClosedStays(acc, text[1..], p);
    } else if text[next.taken..] == [] {
      OpenEnds(next.cur.text);
    } else {
      QuoteCosts(next.cur.text, text[next.taken..], p);
    }
  }

  lemma OpenEnds(acc: seq<byte>)
    ensures Scan(Open(Ascii, acc, false), []) == Some([AsciiParam(acc)])
  {
    assert [AsciiParam(acc)] + [] == [AsciiParam(acc)];
  }

  /** A marked byte inside plain quotes is not read as itself. */
  lemma MarkedIsLost(s: seq<byte>, j: nat, p: Param)
    requires j < |s| && AllDisplayable(s[..j]) && NoneMarked(s[..j]) && Marked(s[j])
    requires Scan(Open(Ascii, [], false), s + [QUOTE]) == Some([p])
    ensures p != AsciiParam(s) && p.AsciiParam?
  {
    hide Scan, IsDisplayable, Translate, HexDigit;
    var text, acc := s[j..] + [QUOTE], s[..j];
    assert s + [QUOTE] == acc + text && [] + acc == acc;
    PlainScans(acc, [], text);
    var cur := Open(Ascii, acc, false);
    ScanNext(cur, text);
    if s[j] == QUOTE {
      ClosedStays(acc, text[1..], p);
    } else {
      var next := Next(cur, text);
      if text[2..] == [] {
        OpenEnds(next.cur.text);
        assert text[1] == QUOTE && s[j] == BACKSLASH && next.cur.text[j] == QUOTE;
      } else {
        QuoteCosts(next.cur.text, text[2..], p);
      }
    }
  }

  /** The plain form, which escapes nothing, reads back exactly when nothing in it needed an escape. */
  lemma PlainRoundTrip(s: seq<byte>)
    requires AllDisplayable(s)
    ensures Parameters(PlainText(s)) == Some([AsciiParam(s)]) <==> NoneMarked(s)
    ensures Parameters(PlainText(s)) != Some([HexParam(s)])
  {
    hide Scan, IsDisplayable, Marked, NoneMarked;
    OpeningScans(QUOTE, Ascii, s + [QUOTE], false);
    assert PlainText(s) == [QUOTE] + (s + [QUOTE]);
    if NoneMarked(s) {
      PlainScans(s, [], [QUOTE]);
      assert [] + s == s && [QUOTE] + [] == [QUOTE];
      ClosingScans(QUOTE, Ascii, s, [], false);
      ScanEnd(Closed(Ascii, s, false), []);
      ListOfOne(AsciiParam(s), false);
    } else {
      var j := FirstMarked(s);
      if p :| Parameters(PlainText(s)) == Some([p]) {
        MarkedIsLost(s, j, p);
      }
    }
  }

  function FirstMarked(s: seq<byte>): (j: nat)
    requires !NoneMarked(s)
    ensures j < |s| && Marked(s[j]) && NoneMarked(s[..j])
  {
    if Marked(s[0]) then 0 else
      assert s == [s[0]] + s[1..];
      1 + FirstMarked(s[1..])
  }

  ghost predicate ReadsBack(text: seq<byte>, s: seq<byte>) {
    Parameters(text) == Some([AsciiParam(s)]) || Parameters(text) == Some([HexParam(s)])
  }

  /** What the safe printer prints reads back except in two cases: a NUL among text it escapes, or a quote or
      backslash among text it does not. */
  lemma SafeRoundTrip(s: seq<byte>)
    ensures ReadsBack(SafeText(s), s)
       <==> s == [] || !AllExpressible(s) || (if AllDisplayable(s) then NoneMarked(s) else !HasNul(s))
  {
    hide Parameters, HexText, EscapedText, PlainText;
    if s == [] || !AllExpressible(s) {
      HexRoundTrip(s);
    } else if AllDisplayable(s) {
      PlainRoundTrip(s);
    } else {
      EscapedRoundTrip(s);
      EscapedIsAscii(s);
      assert AllReturnable(s) <==> !HasNul(s) by { ReturnableUnlessNul(s); }
    }
  }

  lemma EscapedIsAscii(s: seq<byte>)
    ensures Parameters(EscapedText(s)) != Some([HexParam(s)])
  {
    hide Scan, EscapedText, Shown, Finished;
    EscapedReadsBack(s, [], false);
    assert EscapedText(s) + [] == EscapedText(s);
    ListOfOne(AsciiParam(Shown(s)), false);
  }

  lemma ReturnableUnlessNul(s: seq<byte>)
    requires AllExpressible(s)
    ensures AllReturnable(s) <==> !HasNul(s)
  {
    if HasNul(s) {
      var i :| 0 <= i < |s| && s[i] == NUL;
      assert !Returnable(s[i]);
    } else {
      forall i | 0 <= i < |s|
        ensures Returnable(s[i])
      {
        assert Expressible(s[i]);
      }
    }
  }

  // ----- Integers and lists -----

  lemma {:induction false} DigitsAreDigits(n: nat)
    ensures AllDigits(Digits(n)) && (Digits(n)[0] == ZERO ==> n == 0)
  {
    if n >= 10 {
      DigitsAreDigits(n / 10);
    }
  }

  lemma {:induction false} NumeralConcat(a: seq<byte>, b: seq<byte>, acc: nat)
    requires AllDigits(a)
    ensures Numeral(a + b, 10, acc) == Numeral(b, 10, Numeral(a, 10, acc))
    decreases |a|
  {
    hide HexDigit;
    if a == [] {
      assert a + b == b;
    } else {
      assert (a + b)[1..] == a[1..] + b;
      DigitValue(a[0]);
      NumeralConcat(a[1..], b, 10 * acc + HexDigit(a[0]));
    }
  }

  lemma DigitValue(c: byte)
    requires IsDigit(c)
    ensures HexDigit(c) == c - ZERO
  {
  }

  lemma {:induction false} NumeralReadsBack(n: nat)
    ensures Numeral(Digits(n), 10, 0) == n
  {
    if n < 10 {
      NumeralOfOne(n, 0);
    } else {
      NumeralReadsBack(n / 10);
      DigitsAreDigits(n / 10);
      NumeralConcat(Digits(n / 10), [ZERO + n % 10], 0);
      NumeralOfOne(n % 10, n / 10);
    }
  }

  lemma NumeralOfOne(d: nat, acc: nat)
    requires d < 10
    ensures Numeral([ZERO + d], 10, acc) == 10 * acc + d
  {
    assert [ZERO + d][1..] == [];
  }

  lemma MagnitudeReadsBack(n: nat)
    ensures Magnitude(Digits(n)) == n
  {
    NumeralReadsBack(n);
    DigitsAreDigits(n);
    if n == 0 {
      assert Digits(n) == [ZERO] && [ZERO][1..] == [];
      assert Numeral([ZERO], 8, 0) == Numeral([], 8, 0);
    }
  }

  /** The range of the 32-bit values a parameter can hold. */
  predicate Holdable(n: int) {
    INT_LOWEST <= n <= UINT_HIGHEST
  }

  lemma IntegerValueReadsBack(n: int)
    requires Holdable(n)
    ensures IntegerText(n) != [] && IntegerValue(IntegerText(n)) == n
  {
    hide Magnitude, Digits;
    if n < 0 {
      MagnitudeReadsBack(-n);
      assert IntegerText(n)[1..] == Digits(-n);
    } else {
      MagnitudeReadsBack(n);
      DigitsAreDigits(n);
    }
  }

  lemma {:induction false} DigitsScan(t: seq<byte>, acc: seq<byte>, rest: seq<byte>)
    requires AllDigits(t) && acc != []
    ensures Scan(Current(Integer, acc, true, false), t + rest) == Scan(Current(Integer, acc + t, true, false), rest)
    decreases |t|
  {
    hide Scan;
    if t == [] {
      assert t + rest == rest && acc + t == acc;
    } else {
      ScanNext(Current(Integer, acc, true, false), t + rest);
      assert (t + rest)[1..] == t[1..] + rest;
      DigitsScan(t[1..], acc + [t[0]], rest);
      assert acc + [t[0]] + t[1..] == acc + t;
    }
  }

  lemma IntegerReadsBack(n: int, rest: seq<byte>, hexInt: bool)
    requires Holdable(n) && Ends(rest)
    ensures Scan(FRESH.(hexInt := hexInt), IntegerText(n) + rest) == Finished(IntegerParam(n), rest, false)
  {
    hide Scan, IntegerValue, Finished, Digits;
    var t := IntegerText(n);
    IntegerValueReadsBack(n);
    DigitsAreDigits(if n < 0 then -n else n);
    ScanNext(FRESH.(hexInt := hexInt), t + rest);
    assert (t + rest)[1..] == t[1..] + rest;
    DigitsScan(t[1..], [t[0]], rest);
    assert [t[0]] + t[1..] == t;
    ScanEnd(Current(Integer, t, true, false), rest);
  }

  datatype Item = IntegerItem(n: int) | EscapedItem(s: seq<byte>) | HexItem(bytes: seq<byte>)

  function ItemText(item: Item): seq<byte> {
    match item
    case IntegerItem(n) => IntegerText(n)
    case EscapedItem(s) => EscapedText(s)
    case HexItem(s) => HexText(s)
  }

  function ItemParam(item: Item): Param {
    match item
    case IntegerItem(n) => IntegerParam(n)
    case EscapedItem(s) => AsciiParam(s)
    case HexItem(s) => HexParam(s)
  }

  predicate Representable(item: Item) {
    match item
    case IntegerItem(n) => Holdable(n)
    case EscapedItem(s) => AllReturnable(s)
    case HexItem(s) => true
  }

  function JoinedText(items: seq<Item>): seq<byte> {
    if items == [] then []
    else ItemText(items[0]) + if |items| == 1 then [] else [COMMA] + JoinedText(items[1..])
  }

  function ItemParams(items: seq<Item>): seq<Param> {
    seq(|items|, i requires 0 <= i < |items| => ItemParam(items[i]))
  }

  lemma ItemReadsBack(item: Item, rest: seq<byte>, hexInt: bool) returns (later: bool)
    requires Representable(item) && Ends(rest)
    ensures Scan(FRESH.(hexInt := hexInt), ItemText(item) + rest) == Finished(ItemParam(item), rest, later)
  {
    hide Scan, Finished, EscapedText, HexText, IntegerText, Shown, HasNul, Returnable;
    later := hexInt;
    match item
    case IntegerItem(n) =>
      IntegerReadsBack(n, rest, hexInt);
      later := false;
    case EscapedItem(s) =>
      EscapedReadsBack(s, rest, hexInt);
      ShownIsAll(s);
      assert !HasNul(s) by { NoNulReturnable(s); }
    case HexItem(s) =>
      HexReadsBack(s, rest, hexInt);
  }

  lemma NoNulReturnable(s: seq<byte>)
    requires AllReturnable(s)
    ensures !HasNul(s)
  {
    NulNotReturnable();
  }

  /** A comma-joined list of printed values reads back as the list. */
  lemma {:induction false} JoinedReadsBack(items: seq<Item>, hexInt: bool)
    requires items != [] && forall i | 0 <= i < |items| :: Representable(items[i])
    ensures Scan(FRESH.(hexInt := hexInt), JoinedText(items)) == Some(ItemParams(items))
    decreases |items|
  {
    hide Scan, ItemText, ItemParam, Representable;
    var rest := if |items| == 1 then [] else [COMMA] + JoinedText(items[1..]);
    var later := ItemReadsBack(items[0], rest, hexInt);
    if |items| == 1 {
      assert ItemParams(items) == [ItemParam(items[0])] + [];
    } else {
      assert rest[1..] == JoinedText(items[1..]);
      JoinedReadsBack(items[1..], later);
      assert ItemParams(items) == [ItemParam(items[0])] + ItemParams(items[1..]);
    }
  }

  lemma ListRoundTrip(items: seq<Item>)
    requires items != [] && forall i | 0 <= i < |items| :: Representable(items[i])
    ensures Parameters(JoinedText(items)) == Some(ItemParams(items))
  {
    hide Scan, Representable;
    JoinedReadsBack(items, false);
    ItemHasText(items[0]);
  }

  lemma ItemHasText(item: Item)
    ensures ItemText(item) != []
  {
    hide Digits, Escapes, HexDigits;
  }

  // ----- What the parser lets through, and what it does not -----

  /** A string whose closing quote is missing is accepted. */
  lemma UnterminatedIsAccepted(s: seq<byte>)
    requires AllReturnable(s)
    ensures Parameters([QUOTE] + Escapes(s)) == Some([AsciiParam(s)])
  {
    hide Scan, Escapes, Shown, Returnable, HasNul;
    NoNulReturnable(s);
    ShownIsAll(s);
    OpeningScans(QUOTE, Ascii, Escapes(s), false);
    EscapesScan(s, [], [], false);
    assert Escapes(s) + [] == Escapes(s) && [] + Shown(s) == s;
    OpenEnds(s);
  }

  /** A minus sign alone is the number 0. */
  lemma LoneMinusIsZero()
    ensures Parameters([MINUS]) == Some([IntegerParam(0)])
  {
    ScanNext(FRESH, [MINUS]);
    assert [MINUS][1..] == [];
    ListOfOne(IntegerParam(0), false);
    ScanEnd(Current(Integer, [MINUS], true, false), []);
  }
}
