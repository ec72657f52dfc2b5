/**
 The string printers of firmware/src/at_cmd_engine/at_cmds/at_cmd_stdio.c, and what the parameter
 parser makes of the text they produce.
 */
module AtPrinter {
  import opened Bytes
  import opened AtParameters
  import JsonValue

  // ----- The texts -----

  function NibbleChar(d: nat): (c: byte)
    requires d < 16
    ensures HexDigit(c) == d && IsAlphanumeric(c)
  {
    if d <= 9 then ZERO + d else UPPER_A + d - 10
  }

  function ByteText(b: byte): (t: seq<byte>)
    ensures |t| == 2
  {
    [NibbleChar(b / 16), NibbleChar(b % 16)]
  }

  function HexDigits(s: seq<byte>): (t: seq<byte>)
    ensures |t| == 2 * |s|
  {
    if s == [] then [] else ByteText(s[0]) + HexDigits(s[1..])
  }

  /** `[...]` */
  function HexText(s: seq<byte>): seq<byte> {
    [LEFT_BRACKET] + HexDigits(s) + [RIGHT_BRACKET]
  }

  predicate Control(b: byte) {
    0x07 <= b <= 0x0D || b == ESCAPE
  }

  predicate Marked(b: byte) {
    b == QUOTE || b == BACKSLASH
  }

  /** What the escaping printer writes for a byte; nothing for one it has no form for. */
  function EscapeOf(b: byte): (t: seq<byte>)
    ensures |t| <= 2
  {
    if IsDisplayable(b) then (if Marked(b) then [BACKSLASH, b] else [b])
    else if b == NUL then [BACKSLASH, ZERO]
    else if b == ESCAPE then [BACKSLASH, LOWER_E]
    else if Control(b) then [BACKSLASH, ControlLetter(b - 7)]
    else []
  }

  function Escapes(s: seq<byte>): (t: seq<byte>)
    ensures |t| <= 2 * |s|
  {
    if s == [] then [] else EscapeOf(s[0]) + Escapes(s[1..])
  }

  function EscapedText(s: seq<byte>): seq<byte> {
    [QUOTE] + Escapes(s) + [QUOTE]
  }

  function PlainText(s: seq<byte>): seq<byte> {
    [QUOTE] + s + [QUOTE]
  }

  predicate Expressible(b: byte) {
    IsDisplayable(b) || b == NUL || Control(b)
  }

  predicate AllExpressible(s: seq<byte>) {
    forall i | 0 <= i < |s| :: Expressible(s[i])
  }

  /** The form the safe printer chooses. */
  function SafeText(s: seq<byte>): seq<byte> {
    if s == [] || !AllExpressible(s) then HexText(s)
    else if !AllDisplayable(s) then EscapedText(s)
    else PlainText(s)
  }

  // ----- What is chosen -----

  /** Upper-case digits. */
  lemma NibbleIs(d: nat)
    requires d < 16
    ensures NibbleChar(d) == [48, 49, 50, 51, 52, 53, 54, 55, 56, 57, 65, 66, 67, 68, 69, 70][d]
  {
  }

  predicate Visible(b: byte) { 32 <= b <= 126 }

  /** Quote and backslash behind a backslash, other visible bytes as they are, a letter for 7 to 13 and 27, a zero for 0. */
  lemma EscapeIs(b: byte)
    ensures EscapeOf(b) ==
      if b == 34 || b == 92 then [92, b]
      else if Visible(b) then [b]
      else if b == 0 then [92, 48]
      else if b == 7 then [92, 97]
      else if b == 8 then [92, 98]
      else if b == 9 then [92, 116]
      else if b == 10 then [92, 110]
      else if b == 11 then [92, 118]
      else if b == 12 then [92, 102]
      else if b == 13 then [92, 114]
      else if b == 27 then [92, 101]
      else []
  {
  }

  /** What has a form between quotes: visible bytes, 0, 7 to 13, and 27. */
  predicate Quotable(b: byte) { Visible(b) || b == 0 || 7 <= b <= 13 || b == 27 }

  /** The safe printer quotes exactly the strings, not empty, that have a form between quotes, as they are when all is visible;
      everything else it puts into brackets. */
  lemma SafeChoice(s: seq<byte>)
    ensures var quoted := s != [] && forall i :: 0 <= i < |s| ==> Quotable(s[i]);
            var visible := forall i :: 0 <= i < |s| ==> Visible(s[i]);
            && (SafeText(s)[0] == 34 <==> quoted) && (SafeText(s)[0] == 91 <==> !quoted)
            && (quoted ==> SafeText(s) == if visible then [34] + s + [34] else EscapedText(s))
            && (!quoted ==> SafeText(s) == HexText(s))
  {
    hide Escapes, HexDigits;
    assert AllExpressible(s) <==> forall i :: 0 <= i < |s| ==> Quotable(s[i]) by {
      forall i | 0 <= i < |s| ensures Expressible(s[i]) <==> Quotable(s[i]) {}
    }
    assert AllDisplayable(s) <==> forall i :: 0 <= i < |s| ==> Visible(s[i]) by {
      forall i | 0 <= i < |s| ensures IsDisplayable(s[i]) <==> Visible(s[i]) {}
    }
  }

  // ----- The printers -----

  method ByteToStr(b: byte, tmpBuf: array<byte>, at: nat)
    requires at + 2 <= tmpBuf.Length
    modifies tmpBuf
    ensures tmpBuf[..at + 2] == old(tmpBuf[..at]) + ByteText(b)
  {
    var nibble := b / 16;
    tmpBuf[at] := if nibble <= 9 then ZERO + nibble else UPPER_A + nibble - 10;
    nibble := b % 16;
    tmpBuf[at + 1] := if nibble <= 9 then ZERO + nibble else UPPER_A + nibble - 10;
  }

  method PrintStringHex(pBytes: seq<byte>, tmpBuf: array<byte>) returns (len: nat)
    requires |HexText(pBytes)| <= tmpBuf.Length
    modifies tmpBuf
    ensures len <= tmpBuf.Length && tmpBuf[..len] == HexText(pBytes)
  {
    hide ByteText;
    tmpBuf[0] := LEFT_BRACKET;
    len := 1;
    var k := 0;
    while k < |pBytes|
      invariant k <= |pBytes| && len == 1 + 2 * k
      invariant tmpBuf[..len] == [LEFT_BRACKET] + HexDigits(pBytes[..k])
    {
      ByteToStr(pBytes[k], tmpBuf, len);
      HexDigitsSnoc(pBytes[..k], pBytes[k]);
      assert pBytes[..k + 1] == pBytes[..k] + [pBytes[k]];
      len := len + 2;
      k := k + 1;
    }
    assert pBytes[..k] == pBytes;
    tmpBuf[len] := RIGHT_BRACKET;
    len := len + 1;
  }

  lemma {:induction false} HexDigitsSnoc(s: seq<byte>, b: byte)
    ensures HexDigits(s + [b]) == HexDigits(s) + ByteText(b)
  {
    hide ByteText;
    if s == [] {
      assert [b][1..] == [];
    } else {
      assert (s + [b])[1..] == s[1..] + [b];
      HexDigitsSnoc(s[1..], b);
    }
  }

  lemma {:induction false} EscapesSnoc(s: seq<byte>, b: byte)
    ensures Escapes(s + [b]) == Escapes(s) + EscapeOf(b)
  {
    hide EscapeOf;
    if s == [] {
      assert [b][1..] == [];
    } else {
      assert (s + [b])[1..] == s[1..] + [b];
      EscapesSnoc(s[1..], b);
    }
  }

  lemma {:induction false} EscapesGrow(s: seq<byte>, k: nat)
    requires k <= |s|
    ensures |Escapes(s[..k])| <= |Escapes(s)|
  {
    hide EscapeOf;
    if k > 0 {
      assert s[..k][1..] == s[1..][..k - 1];
      EscapesGrow(s[1..], k - 1);
    }
  }

  /** AT_CMD_CONF_PRINTF_OUT_BUF_SIZE, the size of the source's buffer. */
  const OUT_SIZE: nat := 1500

  /** What fits that buffer: exactly 749 bytes in hexadecimal; any 749 bytes escaped, and not all of 750. */
  lemma OutputFits(s: seq<byte>)
    ensures OUT_SIZE == 1500
    ensures |HexText(s)| <= OUT_SIZE <==> |s| <= 749
    ensures |s| <= 749 ==> |EscapedText(s)| <= OUT_SIZE
    ensures |s| >= 750 && (forall i | 0 <= i < |s| :: Marked(s[i]) || s[i] == NUL || Control(s[i])) ==> |EscapedText(s)| > OUT_SIZE
  {
    if forall i | 0 <= i < |s| :: Marked(s[i]) || s[i] == NUL || Control(s[i]) {
      EscapesDouble(s);
    }
  }

  lemma {:induction false} EscapesDouble(s: seq<byte>)
    requires forall i | 0 <= i < |s| :: Marked(s[i]) || s[i] == NUL || Control(s[i])
    ensures |Escapes(s)| == 2 * |s|
  {
    if s != [] {
      EscapesDouble(s[1..]);
    }
  }

  /** One byte in the escaping printer: at most two places, the second taken back if there is no form for it. */
  method PutEscape(b: byte, tmpBuf: array<byte>, at: nat) returns (len: nat)
    requires at + |EscapeOf(b)| <= tmpBuf.Length && at < tmpBuf.Length
    modifies tmpBuf
    ensures at <= len <= tmpBuf.Length && tmpBuf[..len] == old(tmpBuf[..at]) + EscapeOf(b)
  {
    len := at;
    if b >= 0x20 && b <= 0x7E {
      if b == BACKSLASH || b == QUOTE {
        tmpBuf[len] := BACKSLASH;
        len := len + 1;
      }
      tmpBuf[len] := b;
      len := len + 1;
    } else {
      tmpBuf[len] := BACKSLASH;
      len := len + 1;
      if b == NUL {
        tmpBuf[len] := ZERO;
        len := len + 1;
      } else if b >= 0x07 && b <= 0x0D {
        tmpBuf[len] := ControlLetter(b - 0x07);
        len := len + 1;
      } else if b == ESCAPE {
        tmpBuf[len] := LOWER_E;
        len := len + 1;
      } else {
        len := len - 1;
      }
    }
  }

  method PrintStringASCIIEsc(pStr: seq<byte>, tmpBuf: array<byte>) returns (len: nat)
    requires |EscapedText(pStr)| <= tmpBuf.Length
    modifies tmpBuf
    ensures len <= tmpBuf.Length && tmpBuf[..len] == EscapedText(pStr)
  {
    hide EscapeOf;
    tmpBuf[0] := QUOTE;
    len := 1;
    var k := 0;
    while k < |pStr|
      invariant k <= |pStr| && len == 1 + |Escapes(pStr[..k])| <= tmpBuf.Length
      invariant tmpBuf[..len] == [QUOTE] + Escapes(pStr[..k])
    {
      EscapesSnoc(pStr[..k], pStr[k]);
      assert pStr[..k + 1] == pStr[..k] + [pStr[k]];
      EscapesGrow(pStr, k + 1);
      len := PutEscape(pStr[k], tmpBuf, len);
      k := k + 1;
    }
    assert pStr[..k] == pStr;
    tmpBuf[len] := QUOTE;
    len := len + 1;
  }

  /** The buffer is only used, and then has to hold the whole text, when some byte is not displayable. */
  method PrintStringSafe(pStr: seq<byte>, tmpBuf: array<byte>) returns (out: seq<byte>)
    requires AllDisplayable(pStr) || |SafeText(pStr)| <= tmpBuf.Length
    modifies tmpBuf
    ensures out == SafeText(pStr)
  {
    hide HexText, EscapedText;
    if |pStr| == 0 {
      assert HexText([]) == [LEFT_BRACKET, RIGHT_BRACKET] by { EmptyHexText(); }
      return [LEFT_BRACKET, RIGHT_BRACKET];
    }
    var containsEscapableASCII, i := false, 0;
    while i < |pStr|
      invariant i <= |pStr|
      invariant AllExpressible(pStr[..i]) && (containsEscapableASCII <==> !AllDisplayable(pStr[..i]))
    {
      assert pStr[..i + 1] == pStr[..i] + [pStr[i]];
      var b := pStr[i];
      if b >= 0x20 && b <= 0x7E {
      } else if b < 128 && (b == NUL || 0x07 <= b <= 0x0D || b == ESCAPE) {
        containsEscapableASCII := true;
        assert !IsDisplayable(pStr[..i + 1][i]);
      } else {
        assert !Expressible(pStr[i]);
        var len := PrintStringHex(pStr, tmpBuf);
        return tmpBuf[..len];
      }
      i := i + 1;
    }
    assert pStr[..i] == pStr;
    if containsEscapableASCII {
      var len := PrintStringASCIIEsc(pStr, tmpBuf);
      return tmpBuf[..len];
    }
    out := [QUOTE];
    out := out + pStr;
    out := out + [QUOTE];
  }

  lemma EmptyHexText()
    ensures HexText([]) == [LEFT_BRACKET, RIGHT_BRACKET]
  {
  }
}
