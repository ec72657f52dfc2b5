/**
 String literals of firmware/src/cJSON.c: the two passes of `parse_string`,
 `parse_hex4`, `utf16_literal_to_utf8`, and the text `print_string_ptr` produces.
 */
module JsonString {
  import opened Bytes

  // ----- First pass: where the literal ends and how much room its value is given -----

  datatype Scan = NoEnd | End(at: nat, tokens: nat)

  /** From `p`, the position of the closing quote, and the number of tokens before it;
      a token is one byte, or a backslash together with the byte it protects. */
  function ScanFrom(c: seq<byte>, p: nat): (r: Scan)
    requires p <= |c|
    ensures r.End? ==> p <= r.at < |c| && c[r.at] == QUOTE && r.tokens <= r.at - p
    decreases |c| - p
  {
    if p >= |c| then NoEnd
    else if c[p] == QUOTE then End(p, 0)
    else if c[p] == BACKSLASH then
      if p + 1 >= |c| then NoEnd
      else var r := ScanFrom(c, p + 2); if r.End? then End(r.at, r.tokens + 1) else NoEnd
    else
      var r := ScanFrom(c, p + 1); if r.End? then End(r.at, r.tokens + 1) else NoEnd
  }

  // ----- Second pass: the value of the literal -----

  /** The four hexadecimal digits at `p`; 0 as soon as one of them is not a digit. */
  function Hex4(c: seq<byte>, p: nat): (h: nat)
    requires p + 4 <= |c|
    ensures h < 0x10000
  {
    var d0, d1, d2, d3 := HexDigit(c[p]), HexDigit(c[p + 1]), HexDigit(c[p + 2]), HexDigit(c[p + 3]);
    if d0 < 0 || d1 < 0 || d2 < 0 || d3 < 0 then 0
    else ((d0 * 16 + d1) * 16 + d2) * 16 + d3
  }

  /** UTF-8 as section 3 of RFC 3629 lays it out. */
  function Utf8(cp: nat): (u: seq<byte>)
    requires cp <= 0x10FFFF
    ensures 1 <= |u| <= 4
  {
    if cp < 0x80 then [cp]
    else if cp < 0x800 then [0xC0 + cp / 64, 0x80 + cp % 64]
    else if cp < 0x10000 then [0xE0 + cp / 4096, 0x80 + cp / 64 % 64, 0x80 + cp % 64]
    else [0xF0 + cp / 262144, 0x80 + cp / 4096 % 64, 0x80 + cp / 64 % 64, 0x80 + cp % 64]
  }

  datatype Escape = Bad | Good(bytes: seq<byte>, consumed: nat)

  predicate IsHighSurrogate(u: int) { 0xD800 <= u <= 0xDBFF }
  predicate IsLowSurrogate(u: int) { 0xDC00 <= u <= 0xDFFF }

  function PairCodePoint(hi: nat, lo: nat): (cp: nat)
    requires IsHighSurrogate(hi) && IsLowSurrogate(lo)
    ensures 0x10000 <= cp <= 0x10FFFF
  {
    0x10000 + hi % 0x400 * 0x400 + lo % 0x400
  }

  /** `\uXXXX`, or two of them, at `p` in a literal that ends at `end`. */
  function Utf16Escape(c: seq<byte>, p: nat, end: nat): (e: Escape)
    requires p <= end < |c|
    ensures e.Good? ==> e.consumed in {6, 12} && p + e.consumed <= end && 2 * |e.bytes| <= e.consumed
  {
    if end - p < 6 then Bad
    else
      var first := Hex4(c, p + 2);
      if IsLowSurrogate(first) then Bad
      else if IsHighSurrogate(first) then
        if end - (p + 6) < 6 || c[p + 6] != BACKSLASH || c[p + 7] != LOWER_U then Bad
        else
          var second := Hex4(c, p + 8);
          if IsLowSurrogate(second) then Good(Utf8(PairCodePoint(first, second)), 12) else Bad
      else Good(Utf8(first), 6)
  }

  /** The byte that `\x` stands for, for every `x` but `u`. */
  function ShortEscape(x: byte): Option<byte> {
    if x == LOWER_B then Some(BACKSPACE)
    else if x == LOWER_F then Some(FORM_FEED)
    else if x == LOWER_N then Some(LINE_FEED)
    else if x == LOWER_R then Some(RETURN)
    else if x == LOWER_T then Some(TAB)
    else if x == QUOTE || x == BACKSLASH || x == SLASH then Some(x)
    else None
  }

  function DecodeEscape(c: seq<byte>, p: nat, end: nat): (e: Escape)
    requires p < end < |c| && c[p] == BACKSLASH
    ensures e.Good? ==> e.consumed >= 2 && 2 * |e.bytes| <= e.consumed
    ensures e.Good? ==> p + e.consumed <= end || (e.consumed == 2 && |e.bytes| == 1)
  {
    if c[p + 1] == LOWER_U then Utf16Escape(c, p, end)
    else match ShortEscape(c[p + 1])
      case None => Bad
      case Some(b) => Good([b], 2)
  }

  function Prepend(t: seq<byte>, rest: Option<seq<byte>>): Option<seq<byte>> {
    if rest.None? then None else Some(t + rest.value)
  }

  /** The value of the literal text from `p` up to `end`. A last step may jump past `end`. */
  function Decode(c: seq<byte>, p: nat, end: nat): Option<seq<byte>>
    requires end < |c|
    decreases end - p
  {
    if p >= end then Some([])
    else if c[p] != BACKSLASH then Prepend([c[p]], Decode(c, p + 1, end))
    else
      var e := DecodeEscape(c, p, end);
      if e.Bad? then None else Prepend(e.bytes, Decode(c, p + e.consumed, end))
  }

  // ----- The value fits the room the first pass reserved, whatever the input -----

  /** The first pass, started at a token boundary `q`, has a boundary at `t` or at `t + 1`,
      and between the two boundaries no token is longer than two bytes. */
  lemma {:induction false} NextBoundary(c: seq<byte>, q: nat, t: nat, end: nat, tokens: nat) returns (q': nat, tokens': nat)
    requires q <= t <= end && q <= |c| && ScanFrom(c, q) == End(end, tokens)
    ensures t <= q' <= t + 1 && q' <= end && ScanFrom(c, q') == End(end, tokens')
    ensures tokens' <= tokens && q' - q <= 2 * (tokens - tokens')
    decreases t - q
  {
    if q == t {
      q', tokens' := q, tokens;
    } else {
      var n := if c[q] == BACKSLASH then q + 2 else q + 1;
      if n > t {
        q', tokens' := n, tokens - 1;
      } else {
        q', tokens' := NextBoundary(c, n, t, end, tokens - 1);
      }
    }
  }

  /** One step of the second pass from `p`. The first pass's next boundary `q` is `p`, or `p + 1`
      when a bad `\u` has shifted the second pass into the middle of a token; room `tokens + (q - p)`
      is enough for what the step writes and for the room needed after it. */
  lemma StepFits(c: seq<byte>, p: nat, q: nat, end: nat, tokens: nat, written: nat, consumed: nat)
      returns (q': nat, tokens': nat)
    requires p < end < |c| && p <= q <= p + 1 && ScanFrom(c, q) == End(end, tokens)
    requires c[p] != BACKSLASH ==> written == 1 && consumed == 1
    requires c[p] == BACKSLASH ==>
      consumed >= 2 && 2 * written <= consumed && (p + consumed <= end || (consumed == 2 && written == 1))
    ensures p + consumed <= end ==>
      p + consumed <= q' <= p + consumed + 1 && q' <= end && ScanFrom(c, q') == End(end, tokens')
    ensures p + consumed <= end ==> written + tokens' + (q' - (p + consumed)) <= tokens + (q - p)
    ensures p + consumed > end ==> written <= tokens + (q - p)
  {
    var t := p + consumed;
    q', tokens' := q, tokens;
    if q == p && c[p] != BACKSLASH {
      q', tokens' := p + 1, tokens - 1;
    } else if t <= end {
      q', tokens' := NextBoundary(c, q, t, end, tokens);
    }
  }

  /** The value never has more bytes than the first pass counted tokens (plus the slack of a shifted start). */
  lemma {:induction false} DecodeFits(c: seq<byte>, p: nat, q: nat, end: nat, tokens: nat)
    requires p <= q <= p + 1 && q <= end < |c| && ScanFrom(c, q) == End(end, tokens)
    ensures Decode(c, p, end).Some? ==> |Decode(c, p, end).value| <= tokens + (q - p)
    decreases end - p
  {
    if p < end && Decode(c, p, end).Some? {
      var e := if c[p] == BACKSLASH then DecodeEscape(c, p, end) else Good([c[p]], 1);
      var q', tokens' := StepFits(c, p, q, end, tokens, |e.bytes|, e.consumed);
      if p + e.consumed <= end {
        DecodeFits(c, p + e.consumed, q', end, tokens');
      }
    }
  }

  // ----- The whole of parse_string -----

  datatype Literal = NoLiteral | Literal(value: seq<byte>, next: nat)

  /** The string literal at `off` and the position after its closing quote. */
  function ParseStringAt(c: seq<byte>, off: nat): (r: Literal)
    requires off < |c|
    ensures r.Literal? ==> off + 2 <= r.next <= |c| && c[r.next - 1] == QUOTE
  {
    if c[off] != QUOTE then NoLiteral
    else match ScanFrom(c, off + 1)
      case NoEnd => NoLiteral
      case End(at, _) =>
        match Decode(c, off + 1, at)
        case None => NoLiteral
        case Some(v) => Literal(v, at + 1)
  }
}
