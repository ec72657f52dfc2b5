/**
 Base64 as in section 4 of RFC 4648, and the bit register with which
 firmware/src/at_cmd_engine/at_cmds/at_cmd_pkcs.c reads it back.
 */
module Base64 {
  import opened Bytes

  // ----- The alphabet -----

  /** `base64char` */
  function Index(c: byte): (i: int)
    ensures -128 <= i < 128
  {
    if c == PLUS then 62
    else if c == SLASH then 63
    else if c <= NINE then c - ZERO + 52
    else if c <= UPPER_Z then c - UPPER_A
    else if c <= LOWER_Z then c - LOWER_A + 26
    else -1
  }

  /** Character i of the alphabet. */
  function Letter(i: nat): (c: byte)
    requires i < 64
    ensures Index(c) == i && !Blank(c) && c != EQUALS && c != MINUS && c != NUL
  {
    if i < 26 then UPPER_A + i
    else if i < 52 then LOWER_A + i - 26
    else if i < 62 then ZERO + i - 52
    else if i == 62 then PLUS
    else SLASH
  }

  predicate IsSpaceOrTab(c: byte) { c == SPACE || c == TAB }

  predicate IsLineEnd(c: byte) { c == LINE_FEED || c == RETURN }

  predicate Blank(c: byte) { IsLineEnd(c) || IsSpaceOrTab(c) }

  // ----- Encoding -----

  function Group(a: byte, b: byte, c: byte): (t: seq<byte>)
    ensures |t| == 4
  {
    [Letter(a / 4), Letter(a % 4 * 16 + b / 16), Letter(b % 16 * 4 + c / 64), Letter(c % 64)]
  }

  /** Four characters for three bytes, the last group filled up with `=`. */
  function Encode(s: seq<byte>): seq<byte> {
    if s == [] then []
    else if |s| == 1 then Group(s[0], 0, 0)[..2] + [EQUALS, EQUALS]
    else if |s| == 2 then Group(s[0], s[1], 0)[..3] + [EQUALS]
    else Group(s[0], s[1], s[2]) + Encode(s[3..])
  }

  // ----- Decoding -----

  /** 2 to the number of bits waiting in the register. */
  function Weight(numBits: nat): (w: nat)
    requires numBits in {0, 2, 4, 6}
    ensures w > 0
  {
    if numBits == 0 then 1 else if numBits == 2 then 4 else if numBits == 4 then 16 else 64
  }

  datatype Register = Register(waiting: nat, numBits: nat)

  const EMPTY := Register(0, 0)

  predicate Proper(r: Register) {
    r.numBits in {0, 2, 4, 6} && r.waiting < Weight(r.numBits)
  }

  /** Six more bits; the register overflows into a byte if it then holds eight. */
  function Shifted(r: Register, index: nat): (p: (seq<byte>, Register))
    requires Proper(r) && index < 64
    ensures Proper(p.1)
  {
    var all := 64 * r.waiting + index;
    if r.numBits == 0 then ([], Register(all, 6))
    else
      var later := r.numBits - 2;
      ([all / Weight(later)], Register(all % Weight(later), later))
  }

  /** What the decoding loop writes, and whether it met an `=`, which ends it. */
  datatype Decoded = Invalid | Decoded(bytes: seq<byte>, padded: bool, end: nat)

  function Decode(r: Register, text: seq<byte>): (d: Decoded)
    requires Proper(r)
    ensures d.Decoded? ==> d.end <= |text|
    decreases |text|
  {
    if text == [] || text[0] == MINUS || text[0] == NUL then Decoded([], false, 0)
    else if Blank(text[0]) then Later([], 1, Decode(r, text[1..]))
    else if text[0] == EQUALS then Decoded(Shifted(r, 0).0, true, 0)
    else if Index(text[0]) < 0 then Invalid
    else
      var p := Shifted(r, Index(text[0]) % 64);
      Later(p.0, 1, Decode(p.1, text[1..]))
  }

  function Later(bytes: seq<byte>, taken: nat, rest: Decoded): Decoded {
    if rest.Invalid? then Invalid else Decoded(bytes + rest.bytes, rest.padded, taken + rest.end)
  }

  // ----- Round trip -----

  /** The text without spaces, tabs and line ends. */
  function Stripped(text: seq<byte>): seq<byte> {
    if text == [] then [] else (if Blank(text[0]) then [] else [text[0]]) + Stripped(text[1..])
  }

  /** A letter goes into the register. */
  lemma LetterDecodes(r: Register, i: nat, rest: seq<byte>)
    requires Proper(r) && i < 64
    ensures Decode(r, [Letter(i)] + rest) == Later(Shifted(r, i).0, 1, Decode(Shifted(r, i).1, rest))
  {
    hide Letter, Index, Blank, Shifted;
    assert ([Letter(i)] + rest)[1..] == rest;
  }

  /** A byte whose bits fill the register and run over. */
  lemma RunsOver(r: Register, index: nat, b: byte, later: Register)
    requires Proper(r) && index < 64 && r.numBits > 0 && Proper(later) && later.numBits == r.numBits - 2
    requires 64 * r.waiting + index == Weight(later.numBits) * b + later.waiting
    ensures Shifted(r, index) == ([b], later)
  {
  }

  /** The register after the two, three and four letters of a group. */
  lemma GroupShifts(a: byte, b: byte, c: byte)
    ensures Shifted(EMPTY, a / 4) == ([], Register(a / 4, 6))
    ensures Shifted(Register(a / 4, 6), a % 4 * 16 + b / 16) == ([a], Register(b / 16, 4))
    ensures Shifted(Register(b / 16, 4), b % 16 * 4 + c / 64) == ([b], Register(c / 64, 2))
    ensures Shifted(Register(c / 64, 2), c % 64) == ([c], EMPTY)
  {
    RunsOver(Register(a / 4, 6), a % 4 * 16 + b / 16, a, Register(b / 16, 4));
    RunsOver(Register(b / 16, 4), b % 16 * 4 + c / 64, b, Register(c / 64, 2));
    RunsOver(Register(c / 64, 2), c % 64, c, EMPTY);
  }

  /** The first letters of a group, read into an empty register. */
  lemma TwoLetters(a: byte, b: byte, c: byte, rest: seq<byte>)
    ensures Decode(EMPTY, Group(a, b, c)[..2] + rest) == Later([a], 2, Decode(Register(b / 16, 4), rest))
  {
    hide Letter, Decode, Shifted;
    var g := Group(a, b, c);
    GroupShifts(a, b, c);
    LetterDecodes(EMPTY, a / 4, [g[1]] + rest);
    LetterDecodes(Shifted(EMPTY, a / 4).1, a % 4 * 16 + b / 16, rest);
    assert g[..2] + rest == [g[0]] + ([g[1]] + rest);
    LaterLater([], [a], 1, 1, Decode(Register(b / 16, 4), rest));
  }

  lemma LaterLater(a: seq<byte>, b: seq<byte>, m: nat, n: nat, d: Decoded)
    ensures Later(a, m, Later(b, n, d)) == Later(a + b, m + n, d)
  {
    if d.Decoded? {
      assert a + (b + d.bytes) == a + b + d.bytes;
    }
  }

  lemma ThreeLetters(a: byte, b: byte, c: byte, rest: seq<byte>)
    ensures Decode(EMPTY, Group(a, b, c)[..3] + rest) == Later([a, b], 3, Decode(Register(c / 64, 2), rest))
  {
    hide Letter, Decode, Shifted;
    var g := Group(a, b, c);
    GroupShifts(a, b, c);
    TwoLetters(a, b, c, [g[2]] + rest);
    LetterDecodes(Register(b / 16, 4), b % 16 * 4 + c / 64, rest);
    assert g[..3] + rest == g[..2] + ([g[2]] + rest);
    LaterLater([a], [b], 2, 1, Decode(Register(c / 64, 2), rest));
    assert [a] + [b] == [a, b];
  }

  lemma FourLetters(a: byte, b: byte, c: byte, rest: seq<byte>)
    ensures Decode(EMPTY, Group(a, b, c) + rest) == Later([a, b, c], 4, Decode(EMPTY, rest))
  {
    hide Letter, Decode, Shifted;
    var g := Group(a, b, c);
    GroupShifts(a, b, c);
    ThreeLetters(a, b, c, [g[3]] + rest);
    LetterDecodes(Register(c / 64, 2), c % 64, rest);
    assert g + rest == g[..3] + ([g[3]] + rest);
    LaterLater([a, b], [c], 3, 1, Decode(EMPTY, rest));
    assert [a, b] + [c] == [a, b, c];
  }

  /** What decoding leaves: the data, and a zero byte for the first `=`, which the caller's count leaves out. */
  function Restored(s: seq<byte>): seq<byte> {
    s + if |s| % 3 == 0 then [] else [0]
  }

  ghost predicate Restores(d: Decoded, s: seq<byte>) {
    d.Decoded? && d.bytes == Restored(s) && d.padded == (|s| % 3 != 0)
  }

  lemma {:induction false} EncodedDecodes(s: seq<byte>, rest: seq<byte>)
    requires rest != [] && rest[0] == MINUS
    ensures Restores(Decode(EMPTY, Encode(s) + rest), s)
    decreases |s|
  {
    hide Group, Shifted, Decode;
    if s == [] {
      assert Encode(s) + rest == rest && Restored(s) == [];
      DashEnds(rest);
    } else if |s| == 1 {
      assert Encode(s) + rest == Group(s[0], 0, 0)[..2] + ([EQUALS, EQUALS] + rest);
      TwoLetters(s[0], 0, 0, [EQUALS, EQUALS] + rest);
      FirstPad(Register(0, 4), [EQUALS, EQUALS] + rest);
      assert [s[0]] + [0] == Restored(s);
    } else if |s| == 2 {
      assert Encode(s) + rest == Group(s[0], s[1], 0)[..3] + ([EQUALS] + rest);
      ThreeLetters(s[0], s[1], 0, [EQUALS] + rest);
      FirstPad(Register(0, 2), [EQUALS] + rest);
      assert [s[0], s[1]] + [0] == Restored(s);
    } else {
      assert Encode(s) + rest == Group(s[0], s[1], s[2]) + (Encode(s[3..]) + rest);
      FourLetters(s[0], s[1], s[2], Encode(s[3..]) + rest);
      EncodedDecodes(s[3..], rest);
      assert [s[0], s[1], s[2]] + Restored(s[3..]) == Restored(s);
    }
  }

  lemma DashEnds(text: seq<byte>)
    requires text != [] && text[0] == MINUS
    ensures Decode(EMPTY, text) == Decoded([], false, 0)
  {
  }

  lemma FirstPad(r: Register, text: seq<byte>)
    requires Proper(r) && r.waiting == 0 && r.numBits > 0 && text != [] && text[0] == EQUALS
    ensures Decode(r, text) == Decoded([0], true, 0)
  {
  }

  /** Blanks between the characters change neither what is written nor how it ends. */
  lemma {:induction false} BlanksDoNotMatter(r: Register, body: seq<byte>, rest: seq<byte>)
    requires Proper(r)
    ensures var d, e := Decode(r, body + rest), Decode(r, Stripped(body) + rest);
            d.Decoded? == e.Decoded? && (d.Decoded? ==> d.bytes == e.bytes && d.padded == e.padded)
    decreases |body|
  {
    hide Shifted, Blank, Index;
    if body == [] {
      assert body + rest == rest && Stripped(body) + rest == rest;
    } else {
      assert (body + rest)[1..] == body[1..] + rest;
      if Blank(body[0]) {
        assert Stripped(body) == Stripped(body[1..]);
        BlanksDoNotMatter(r, body[1..], rest);
        OneBlank(r, body + rest);
      } else {
        var c, later := body[0], Stripped(body[1..]) + rest;
        assert Stripped(body) + rest == [c] + later && ([c] + later)[1..] == later;
        if c != MINUS && c != NUL && c != EQUALS && Index(c) >= 0 {
          BlanksDoNotMatter(Shifted(r, Index(c) % 64).1, body[1..], rest);
        }
      }
    }
  }

  lemma OneBlank(r: Register, text: seq<byte>)
    requires Proper(r) && text != [] && Blank(text[0])
    ensures Decode(r, text) == Later([], 1, Decode(r, text[1..]))
  {
  }

  /** The characters of an encoding, however they are spread over lines. */
  predicate Spreads(body: seq<byte>, s: seq<byte>) {
    Stripped(body) == Encode(s)
  }

  /** Any spreading of the encoding of any bytes decodes to those bytes. */
  lemma SpreadDecodes(body: seq<byte>, s: seq<byte>, rest: seq<byte>)
    requires Spreads(body, s) && rest != [] && rest[0] == MINUS
    ensures Restores(Decode(EMPTY, body + rest), s)
  {
    hide Decode, Stripped, Encode;
    BlanksDoNotMatter(EMPTY, body, rest);
    EncodedDecodes(s, rest);
  }

  // ----- What is refused -----

  /** The bytes that end the encoding: a NUL, a dash, an equals sign. */
  predicate Stops(c: byte) { c == 0 || c == 45 || c == 61 }

  /** A character the decoder has no bits for; it has for many that are not in the alphabet. */
  predicate Refused(c: byte) { (58 <= c <= 64 && c != 61) || c >= 123 }

  lemma RefusedIs(c: byte)
    requires !Stops(c) && !Blank(c)
    ensures Index(c) < 0 <==> Refused(c)
  {
  }

  /** An encoding is refused exactly for such a character, in front of all that ends it. */
  lemma {:induction false} InvalidExactly(r: Register, text: seq<byte>)
    requires Proper(r)
    ensures Decode(r, text).Invalid? <==> exists i :: 0 <= i < |text| && Refused(text[i]) && NoneStops(text[..i])
    decreases |text|
  {
    hide Shifted, Index;
    if text != [] {
      var c, rest := text[0], text[1..];
      if Stops(c) {
        forall i | 0 <= i < |text| && Refused(text[i]) ensures !NoneStops(text[..i]) {
          assert i > 0 ==> text[..i][0] == c;
        }
      } else {
        if !Blank(c) {
          RefusedIs(c);
        }
        if !Blank(c) && Refused(c) {
          assert NoneStops(text[..0]);
        } else {
          BlanksAreAllowed(c);
          var s := if Blank(c) then r else Shifted(r, Index(c) % 64).1;
          InvalidExactly(s, rest);
          forall i | 0 <= i < |rest|
            ensures Refused(rest[i]) && NoneStops(rest[..i]) <==> Refused(text[i + 1]) && NoneStops(text[..i + 1])
          {
            assert text[..i + 1] == [c] + rest[..i];
          }
          if i :| 0 <= i < |text| && Refused(text[i]) && NoneStops(text[..i]) {
            assert Refused(rest[i - 1]) && NoneStops(rest[..i - 1]);
          }
          if i :| 0 <= i < |rest| && Refused(rest[i]) && NoneStops(rest[..i]) {
            assert Refused(text[i + 1]) && NoneStops(text[..i + 1]);
          }
        }
      }
    }
  }

  predicate NoneStops(t: seq<byte>) {
    forall i :: 0 <= i < |t| ==> !Stops(t[i])
  }

  lemma BlanksAreAllowed(c: byte)
    ensures Blank(c) ==> !Refused(c) && !Stops(c)
  {
  }
}
