/**
 What the decoder of firmware/src/at_cmd_engine/terminal/ansi_decoder.c keeps of an escape sequence and
 what it decides about it, said of the bytes of the sequence.
 */
module Sequences {
  import opened Bytes
  import opened History
  import opened Ansi
  import opened Terminal

  // ----- Sequences (section 5.4 of ECMA-48) -----

  predicate AllBetween(t: seq<byte>, low: byte, high: byte) {
    forall i :: 0 <= i < |t| ==> low <= t[i] <= high
  }

  /** Parameter bytes that are acted on: no colon (58), and `<=>?` (60 to 63) only in front. */
  predicate Regular(params: seq<byte>) {
    AllBetween(params, 48, 63) && forall i :: 0 <= i < |params| ==> params[i] != 58 && (i > 0 ==> params[i] < 60)
  }

  /** The first parameter byte, a private one excepted, is kept with the intermediate bytes. */
  function Kept(params: seq<byte>, inters: seq<byte>): seq<byte> {
    (if params != [] && params[0] < 60 then params[..1] else []) + inters
  }

  /** The others are kept as parameters. */
  function Others(params: seq<byte>): seq<byte> {
    if params != [] && params[0] < 60 then params[1..] else params
  }

  /** Of what comes, a buffer holds the first 16 bytes. */
  ghost predicate Holds(buffer: seq<byte>, length: nat, t: seq<byte>) {
    |buffer| == 16 && length == (if |t| <= 16 then |t| else 16) && buffer[..length] == t[..length]
  }

  /** Inside a sequence: nothing is decided, and this is kept. */
  ghost predicate Inside(d: Decoder, state: EscapeState, kept: seq<byte>, params: seq<byte>) {
    && d.state == state && d.decision == Unknown && !d.dispatched && d.ss3Byte == 0
    && Holds(d.collect, d.collectLength, kept) && Holds(d.param, d.paramLength, params)
  }

  lemma HoldsOneMore(buffer: seq<byte>, length: nat, t: seq<byte>, c: byte)
    requires Holds(buffer, length, t)
    ensures if length < 16 then Holds(buffer[length := c], length + 1, t + [c]) else Holds(buffer, length, t + [c])
  {
    if length < 16 {
      assert buffer[length := c][..length + 1] == buffer[..length] + [c];
    } else {
      assert (t + [c])[..16] == t[..16];
    }
  }

  lemma IntroducerBegins(d: Decoder, maxSpace: nat)
    requires Bounded(d) && d.state == Ground && maxSpace > 0
    ensures Inside(Decoding(d, [27, 91], maxSpace), CsiEntry, [], [])
  {
    NothingDecoded(d, maxSpace);
    DecodingMore(d, [], 27, maxSpace);
    DecodingMore(d, [27], 91, maxSpace);
    assert [] + [27] == [27] && [27] + [91] == [27, 91];
  }

  /** A parameter byte. */
  lemma ParameterGoes(d: Decoder, c: byte, kept: seq<byte>, params: seq<byte>, maxSpace: nat)
    requires Bounded(d) && maxSpace > 0 && 48 <= c <= 63 && c != 58
    ensures Inside(d, CsiEntry, kept, params) ==>
              Inside(DecodeByte(d, c, maxSpace).0, CsiParam, if c < 60 then kept + [c] else kept, if c < 60 then params else params + [c])
    ensures Inside(d, CsiParam, kept, params) && c < 60 ==>
              Inside(DecodeByte(d, c, maxSpace).0, CsiParam, kept, params + [c])
  {
    if Inside(d, CsiEntry, kept, params) || Inside(d, CsiParam, kept, params) {
      HoldsOneMore(d.collect, d.collectLength, kept, c);
      HoldsOneMore(d.param, d.paramLength, params, c);
    }
    hide Holds;
  }

  /** An intermediate byte. */
  lemma IntermediateGoes(d: Decoder, c: byte, kept: seq<byte>, params: seq<byte>, maxSpace: nat)
    requires Bounded(d) && maxSpace > 0 && 32 <= c <= 47
    requires Inside(d, CsiEntry, kept, params) || Inside(d, CsiParam, kept, params) || Inside(d, CsiInter, kept, params)
    ensures Inside(DecodeByte(d, c, maxSpace).0, CsiInter, kept + [c], params)
  {
    HoldsOneMore(d.collect, d.collectLength, kept, c);
    hide Holds;
  }

  function StateBehind(params: seq<byte>, inters: seq<byte>): EscapeState {
    if inters != [] then CsiInter else if params != [] then CsiParam else CsiEntry
  }

  lemma {:induction false} ParametersGo(d: Decoder, params: seq<byte>, maxSpace: nat)
    requires Bounded(d) && d.state == Ground && maxSpace > 0 && Regular(params)
    ensures Inside(Decoding(d, [27, 91] + params, maxSpace), StateBehind(params, []), Kept(params, []), Others(params))
    decreases |params|
  {
    hide DecodeByte, Decoding, Inside;
    if params == [] {
      assert [27, 91] + params == [27, 91] && Kept(params, []) == [];
      IntroducerBegins(d, maxSpace);
    } else {
      var n := |params| - 1;
      var front, c := params[..n], params[n];
      ParametersGo(d, front, maxSpace);
      assert [27, 91] + params == [27, 91] + front + [c];
      DecodingMore(d, [27, 91] + front, c, maxSpace);
      ParameterGoes(Decoding(d, [27, 91] + front, maxSpace), c, Kept(front, []), Others(front), maxSpace);
      if n == 0 {
        assert Kept(params, []) == if c < 60 then [] + [c] else [];
        assert Others(params) == if c < 60 then [] else [] + [c];
        assert Kept(front, []) == [] && Others(front) == [];
      } else {
        assert Kept(params, []) == Kept(front, []);
        assert Others(params) == Others(front) + [c];
      }
    }
  }

  lemma {:induction false} IntermediatesGo(d: Decoder, params: seq<byte>, inters: seq<byte>, maxSpace: nat)
    requires Bounded(d) && d.state == Ground && maxSpace > 0 && Regular(params) && AllBetween(inters, 32, 47)
    ensures Inside(Decoding(d, [27, 91] + params + inters, maxSpace), StateBehind(params, inters), Kept(params, inters), Others(params))
    decreases |inters|
  {
    hide DecodeByte, Decoding, Inside, Regular;
    if inters == [] {
      assert [27, 91] + params + inters == [27, 91] + params;
      ParametersGo(d, params, maxSpace);
    } else {
      var n := |inters| - 1;
      var front, c := inters[..n], inters[n];
      IntermediatesGo(d, params, front, maxSpace);
      assert [27, 91] + params + inters == [27, 91] + params + front + [c];
      DecodingMore(d, [27, 91] + params + front, c, maxSpace);
      IntermediateGoes(Decoding(d, [27, 91] + params + front, maxSpace), c, Kept(params, front), Others(params), maxSpace);
      assert Kept(params, inters) == Kept(params, front) + [c];
    }
  }

  /** What a final byte decides: 65 is the up key, 66 the down key, and 126 is F1 when the parameter buffer begins with a 1. */
  function FinalDecision(final: byte, param: seq<byte>): Decision
    requires param != []
  {
    if final == 65 then KeyUp else if final == 66 then KeyDown else if final == 126 && param[0] == 49 then F1 else EscapeCsi
  }

  lemma FinalDecides(d: Decoder, final: byte, state: EscapeState, kept: seq<byte>, params: seq<byte>, maxSpace: nat)
    requires Bounded(d) && maxSpace > 0 && 64 <= final <= 126
    requires state in {CsiEntry, CsiParam, CsiInter} && Inside(d, state, kept, params)
    ensures var r := DecodeByte(d, final, maxSpace).0;
            && r.state == Ground && r.dispatched && r.finalByte == final && r.decision == FinalDecision(final, d.param)
            && SameKept(d, r)
  {
  }

  /** A whole sequence with regular parameters: until the final byte nothing is decided; with it the decoder is back at ground, has
      the final byte, and keeps of parameters and intermediate bytes what its buffers hold. */
  lemma SequenceIsKept(d: Decoder, params: seq<byte>, inters: seq<byte>, final: byte, maxSpace: nat)
    requires Bounded(d) && d.state == Ground && maxSpace > 0
    requires Regular(params) && AllBetween(inters, 32, 47) && 64 <= final <= 126
    ensures Inside(Decoding(d, [27, 91] + params + inters, maxSpace), StateBehind(params, inters), Kept(params, inters), Others(params))
    ensures var r := Decoding(d, [27, 91] + params + inters + [final], maxSpace);
            && r.state == Ground && r.dispatched && r.finalByte == final && |r.param| > 0
            && Holds(r.collect, r.collectLength, Kept(params, inters)) && Holds(r.param, r.paramLength, Others(params))
            && r.decision == FinalDecision(final, r.param)
  {
    hide DecodeByte, Decoding, Regular, AllBetween, Holds, FinalDecision, StateBehind;
    var before := [27, 91] + params + inters;
    IntermediatesGo(d, params, inters, maxSpace);
    DecodingMore(d, before, final, maxSpace);
    BehindIsInside(params, inters);
    FinalDecides(Decoding(d, before, maxSpace), final, StateBehind(params, inters), Kept(params, inters), Others(params), maxSpace);
  }

  lemma BehindIsInside(params: seq<byte>, inters: seq<byte>)
    ensures StateBehind(params, inters) in {CsiEntry, CsiParam, CsiInter}
  {
  }

  // ----- Sequences that are not acted on -----

  /** Being ignored: nothing is decided. */
  ghost predicate Ignoring(d: Decoder) {
    d.state == CsiIgnore && d.decision == Unknown && !d.dispatched && d.ss3Byte == 0
  }

  /** The buffers keep what they have. */
  predicate SameKept(d: Decoder, r: Decoder) {
    r.collect == d.collect && r.collectLength == d.collectLength && r.param == d.param && r.paramLength == d.paramLength
  }

  /** A colon, a private byte that is not the first, or a parameter behind an intermediate byte: the sequence is ignored from here. */
  lemma IgnoringBegins(d: Decoder, c: byte, state: EscapeState, kept: seq<byte>, params: seq<byte>, maxSpace: nat)
    requires Bounded(d) && maxSpace > 0 && Inside(d, state, kept, params)
    requires (state == CsiEntry && c == 58) || (state == CsiParam && (c == 58 || 60 <= c <= 63)) || (state == CsiInter && 48 <= c <= 63)
    ensures Ignoring(DecodeByte(d, c, maxSpace).0) && SameKept(d, DecodeByte(d, c, maxSpace).0)
  {
  }

  /** It is, until a final byte ends it, for which nothing is decided either. */
  lemma IgnoringEnds(d: Decoder, c: byte, maxSpace: nat)
    requires Bounded(d) && maxSpace > 0 && Ignoring(d)
    ensures 32 <= c <= 63 ==> Ignoring(DecodeByte(d, c, maxSpace).0)
    ensures 32 <= c <= 126 ==> SameKept(d, DecodeByte(d, c, maxSpace).0)
    ensures var r := DecodeByte(d, c, maxSpace).0;
            64 <= c <= 126 ==> r.state == Ground && r.decision == Unknown && !r.dispatched
  {
  }

  /** ESC O and one byte of 32 to 126 are a sequence, decided as such. */
  lemma SingleShift(d: Decoder, c: byte, maxSpace: nat)
    requires Bounded(d) && d.state == Ground && maxSpace > 0 && 32 <= c <= 126
    ensures var one, two := Decoding(d, [27, 79], maxSpace), Decoding(d, [27, 79, c], maxSpace);
            && one.state == Ss3 && one.decision == Unknown && !one.dispatched
            && two.state == Ground && two.decision == EscapeSs3 && two.ss3Byte == c
  {
    NothingDecoded(d, maxSpace);
    DecodingMore(d, [], 27, maxSpace);
    DecodingMore(d, [27], 79, maxSpace);
    DecodingMore(d, [27, 79], c, maxSpace);
    assert [] + [27] == [27] && [27] + [79] == [27, 79] && [27, 79] + [c] == [27, 79, c];
  }
}
