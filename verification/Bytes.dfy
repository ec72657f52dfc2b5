/** Bytes, the ASCII codes the sources compare against, and text found at a position. */
module Bytes {
  /** A C `unsigned char`. */
  type byte = b: int | 0 <= b < 256

  datatype Option<+T> = None | Some(value: T)

  const NUL: byte := 0
  const BACKSPACE: byte := 0x08
  const TAB: byte := 0x09
  const LINE_FEED: byte := 0x0A
  const FORM_FEED: byte := 0x0C
  const RETURN: byte := 0x0D
  const ESCAPE: byte := 0x1B
  const SPACE: byte := 0x20
  const QUOTE: byte := 0x22
  const PLUS: byte := 0x2B
  const COMMA: byte := 0x2C
  const MINUS: byte := 0x2D
  const DOT: byte := 0x2E
  const SLASH: byte := 0x2F
  const ZERO: byte := 0x30
  const NINE: byte := 0x39
  const COLON: byte := 0x3A
  const EQUALS: byte := 0x3D
  const UPPER_A: byte := 0x41
  const UPPER_E: byte := 0x45
  const UPPER_F: byte := 0x46
  const UPPER_X: byte := 0x58
  const UPPER_Z: byte := 0x5A
  const LEFT_BRACKET: byte := 0x5B
  const BACKSLASH: byte := 0x5C
  const RIGHT_BRACKET: byte := 0x5D
  const LOWER_A: byte := 0x61
  const LOWER_B: byte := 0x62
  const LOWER_E: byte := 0x65
  const LOWER_F: byte := 0x66
  const LOWER_N: byte := 0x6E
  const LOWER_R: byte := 0x72
  const LOWER_T: byte := 0x74
  const LOWER_U: byte := 0x75
  const LOWER_V: byte := 0x76
  const LOWER_X: byte := 0x78
  const LOWER_Z: byte := 0x7A
  const LEFT_BRACE: byte := 0x7B
  const RIGHT_BRACE: byte := 0x7D

  predicate IsDigit(b: byte) { ZERO <= b <= NINE }

  predicate AllDigits(t: seq<byte>) { forall i :: 0 <= i < |t| ==> IsDigit(t[i]) }

  predicate IsDisplayable(c: byte) { 0x20 <= c <= 0x7E }

  predicate AllDisplayable(t: seq<byte>) { forall i :: 0 <= i < |t| ==> IsDisplayable(t[i]) }

  /** The value of a hexadecimal digit of either case, or -1. */
  function HexDigit(b: byte): (d: int)
    ensures -1 <= d < 16
  {
    if ZERO <= b <= NINE then b - ZERO
    else if UPPER_A <= b <= UPPER_F then 10 + b - UPPER_A
    else if LOWER_A <= b <= LOWER_F then 10 + b - LOWER_A
    else -1
  }

  /** `t` stands in `c` at position `off`. */
  predicate At(c: seq<byte>, off: nat, t: seq<byte>) {
    off + |t| <= |c| && c[off..off + |t|] == t
  }

  lemma AtConcat(c: seq<byte>, off: nat, a: seq<byte>, b: seq<byte>)
    requires At(c, off, a + b)
    ensures At(c, off, a) && At(c, off + |a|, b) && off + |a| + |b| <= |c|
  {
    var t := a + b;
    assert c[off..off + |t|][..|a|] == a && c[off..off + |t|][|a|..] == b;
  }

  lemma AtIndex(c: seq<byte>, off: nat, t: seq<byte>, i: nat)
    requires At(c, off, t) && i < |t|
    ensures off + |t| <= |c| && c[off + i] == t[i]
  {
    assert c[off..off + |t|][i] == t[i];
  }

  /** No byte of `t` would end a C string early. */
  predicate NulFree(t: seq<byte>) { NUL !in t }

  /** A C string as its readers see it: up to the first NUL. */
  function CString(t: seq<byte>): seq<byte> {
    if t == [] || t[0] == NUL then [] else [t[0]] + CString(t[1..])
  }

  lemma {:induction false} CStringWhole(t: seq<byte>)
    ensures NulFree(CString(t)) && |CString(t)| <= |t|
    ensures NulFree(t) <==> CString(t) == t
  {
    if t != [] && t[0] != NUL {
      CStringWhole(t[1..]);
      assert t == [t[0]] + t[1..];
    }
  }

  /** Character i of a C string whose characters before the terminator are `text`. */
  function Peek(text: seq<byte>, i: nat): byte {
    if i < |text| then text[i] else NUL
  }
}
