/**
 The conversion loop of firmware/src/at_cmd_engine/at_cmds/at_cmd_pkcs.c: a 32-bit register that is
 read out over the very text it is filled from.
 */
module PemDecoder {
  import opened Bytes
  import opened Base64
  import opened Pem

  const REGISTER_LIMIT := 0x1_0000_0000

  /** The C string in the first `length` bytes of the buffer. */
  function Text(file: array<byte>, length: nat): (t: seq<byte>)
    requires length < file.Length
    reads file
    ensures |t| == length
  {
    file[..length]
  }

  // ----- The tests look only at what is still to be read -----

  ghost predicate SameFrom(a: seq<byte>, b: seq<byte>, i: nat) {
    |a| == |b| && forall k | i <= k < |a| :: a[k] == b[k]
  }

  lemma SameRest(a: seq<byte>, b: seq<byte>, i: nat, j: nat)
    requires SameFrom(a, b, i) && i <= j
    ensures From(a, j) == From(b, j)
  {
  }

  lemma {:induction false} SameDashes(a: seq<byte>, b: seq<byte>, i: nat)
    requires SameFrom(a, b, i)
    ensures FindDashes(a, i) == FindDashes(b, i)
    decreases |a| - i
  {
    if i + 5 <= |a| {
      assert a[i..i + 5] == b[i..i + 5];
      SameDashes(a, b, i + 1);
    }
  }

  lemma SameEnd(a: seq<byte>, b: seq<byte>, i: nat, pLabel: Option<seq<byte>>)
    requires SameFrom(a, b, i)
    ensures EndsWell(a, i, pLabel) == EndsWell(b, i, pLabel)
  {
    hide FindDashes, From;
    SameRest(a, b, i, i);
    SameRest(a, b, i, i + |END|);
    SameDashes(a, b, i + |END| + LabelLength(pLabel));
  }

  // ----- The register -----

  /** The low bits of the register are the waiting ones; what lies above them has already gone out. */
  ghost predicate Holds(shiftReg: nat, r: Register) {
    Base64.Proper(r) && shiftReg % Weight(r.numBits) == r.waiting
  }

  lemma RemainderIs(x: nat, m: nat, g: int, all: nat)
    requires m > 0 && x == m * g + all && all < m
    ensures x % m == all
  {
    var d := g - x / m;
    assert m * d == x % m - all by {
      assert x == m * (x / m) + x % m;
      assert m * d == m * g - m * (x / m);
    }
    MultipleIsFar(m, d);
  }

  lemma MultipleIsFar(m: int, d: int)
    requires m > 0
    ensures d >= 1 ==> m * d >= m
    ensures d <= -1 ==> m * d <= -m
  {
  }

  /** A remainder by a multiple of `m` has the same remainder by `m`. */
  lemma RemainderOfRemainder(y: nat, m: nat, times: nat)
    requires m > 0 && m * times > 0
    ensures y % (m * times) % m == y % m
  {
    var all := m * times;
    var q, r := y / all, y % all;
    assert y == all * q + r;
    Regrouped(m, times, q);
    assert r == m * (r / m) + r % m;
    Distributes(m, times * q, r / m);
    RemainderIs(y, m, times * q + r / m, r % m);
  }

  lemma Regrouped(m: int, times: int, q: int)
    ensures m * times * q == m * (times * q)
  {
  }

  lemma Distributes(m: int, a: int, b: int)
    ensures m * (a + b) == m * a + m * b
  {
  }

  /** Only so many low bits of the register matter; the 32-bit limit lies far above them. */
  lemma LowBits(shiftReg: nat, index: nat, w: nat, waiting: nat)
    requires w in {1, 4, 16, 64} && shiftReg % w == waiting && index < 64
    ensures (shiftReg * 64 + index) % REGISTER_LIMIT % (64 * w) == 64 * waiting + index
  {
    var g, y, m := shiftReg / w, shiftReg * 64 + index, 64 * w;
    var times := if w == 1 then 67108864 else if w == 4 then 16777216 else if w == 16 then 4194304 else 1048576;
    assert m * times == REGISTER_LIMIT;
    RemainderOfRemainder(y, m, times);
    assert shiftReg == w * g + waiting;
    assert y == m * g + (64 * waiting + index);
    RemainderIs(y, m, g, 64 * waiting + index);
  }

  /** The byte above the bits that stay. */
  lemma ByteAbove(x: nat, v: nat, all: nat)
    requires v in {1, 4, 16} && x % (256 * v) == all
    ensures x / v % 256 == all / v && x % v == all % v
  {
    var g := x / (256 * v);
    assert x == 256 * v * g + all;
    if v == 1 {
    } else if v == 4 {
      assert x / 4 == 256 * g + all / 4;
    } else {
      assert x / 16 == 256 * g + all / 16;
    }
  }

  lemma RegisterShifts(shiftReg: nat, r: Register, index: nat)
    requires Holds(shiftReg, r) && index < 64
    ensures Holds((shiftReg * 64 + index) % REGISTER_LIMIT, Shifted(r, index).1)
    ensures r.numBits > 0 ==>
              Shifted(r, index).0 == [(shiftReg * 64 + index) % REGISTER_LIMIT / Weight(r.numBits - 2) % 256]
  {
    LowBits(shiftReg, index, Weight(r.numBits), r.waiting);
    if r.numBits > 0 {
      ByteAbove((shiftReg * 64 + index) % REGISTER_LIMIT, Weight(r.numBits - 2), 64 * r.waiting + index);
    }
  }

  // ----- The loop -----

  /** Between two characters: what is written stands at the front, the rest of the text is untouched. */
  ghost predicate Reading(memory: seq<byte>, text: seq<byte>, start: nat, p: nat, binaryLength: nat, r: Register) {
    && start <= p <= |text| < |memory|
    && binaryLength <= p - start
    && memory[|text|] == NUL
    && (forall k | p <= k < |text| :: memory[k] == text[k])
    && Base64.Proper(r)
    && Decode(EMPTY, From(text, start)) == Later(memory[..binaryLength], p - start, Decode(r, From(text, p)))
  }

  lemma ReadingStarts(text: seq<byte>, memory: seq<byte>, start: nat)
    requires start <= |text| < |memory| && memory[..|text|] == text && memory[|text|] == NUL
    ensures Reading(memory, text, start, start, 0, EMPTY)
  {
    hide Decode;
    var d := Decode(EMPTY, From(text, start));
    if d.Decoded? {
      assert [] + d.bytes == d.bytes;
    }
  }

  /** The step of the decoding on which the loop is. */
  lemma BlankStep(r: Register, text: seq<byte>, p: nat)
    requires Base64.Proper(r) && p < |text| && Blank(text[p])
    ensures Decode(r, From(text, p)) == Later([], 1, Decode(r, From(text, p + 1)))
  {
    hide Shifted;
    assert From(text, p)[1..] == From(text, p + 1);
  }

  lemma LetterStep(r: Register, text: seq<byte>, p: nat)
    requires Base64.Proper(r) && p < |text| && text[p] !in {MINUS, NUL, EQUALS} && !Blank(text[p])
    ensures Index(text[p]) < 0 ==> Decode(r, From(text, p)).Invalid?
    ensures Index(text[p]) >= 0 ==>
              Decode(r, From(text, p))
              == Later(Shifted(r, Index(text[p]) % 64).0, 1, Decode(Shifted(r, Index(text[p]) % 64).1, From(text, p + 1)))
  {
    hide Shifted, Index;
    assert From(text, p)[1..] == From(text, p + 1);
  }

  lemma StopStep(r: Register, text: seq<byte>, p: nat)
    requires Base64.Proper(r) && p <= |text| && Peek(text, p) in {MINUS, NUL}
    ensures Decode(r, From(text, p)) == Decoded([], false, 0)
  {
    hide Shifted;
  }

  lemma PadStep(r: Register, text: seq<byte>, p: nat)
    requires Base64.Proper(r) && p < |text| && text[p] == EQUALS
    ensures Decode(r, From(text, p)) == Decoded(Shifted(r, 0).0, true, 0)
  {
    hide Shifted;
  }

  /** On to the next character, with what the last one pushed out. */
  lemma ReadingGoesOn(memory: seq<byte>, text: seq<byte>, start: nat, p: nat, binaryLength: nat, r: Register,
      later: seq<byte>, pushed: seq<byte>, next: Register)
    requires Reading(memory, text, start, p, binaryLength, r) && p < |text| && Base64.Proper(next)
    requires Decode(r, From(text, p)) == Later(pushed, 1, Decode(next, From(text, p + 1)))
    requires |pushed| <= 1 && |later| == |memory|
    requires later[..binaryLength + |pushed|] == memory[..binaryLength] + pushed
    requires forall k | p < k < |memory| :: later[k] == memory[k]
    ensures Reading(later, text, start, p + 1, binaryLength + |pushed|, next)
  {
    hide Decode, From;
    LaterLater(memory[..binaryLength], pushed, p - start, 1, Decode(next, From(text, p + 1)));
  }

  /** One character's six bits into the register, and a byte out of it when eight are there. */
  method ShiftIn(file: array<byte>, shiftReg: nat, numBits: nat, index: nat, binaryLength: nat, ghost r: Register)
    returns (reg: nat, bits: nat, newLength: nat)
    requires Holds(shiftReg, r) && numBits == r.numBits && index < 64 && binaryLength < file.Length
    modifies file
    ensures Holds(reg, Shifted(r, index).1) && bits == Shifted(r, index).1.numBits
    ensures newLength == binaryLength + |Shifted(r, index).0|
    ensures file[..newLength] == old(file[..binaryLength]) + Shifted(r, index).0
    ensures forall k | binaryLength < k < file.Length :: file[k] == old(file[k])
  {
    hide Holds;
    RegisterShifts(shiftReg, r, index);
    assert Base64.Proper(r) by { HoldsProper(shiftReg, r); }
    reg := (shiftReg * 64 + index) % REGISTER_LIMIT;
    bits := numBits + 6;
    newLength := binaryLength;
    if bits >= 8 {
      bits := bits - 8;
      file[binaryLength] := reg / Weight(bits) % 256;
      newLength := binaryLength + 1;
    }
  }

  lemma HoldsProper(shiftReg: nat, r: Register)
    requires Holds(shiftReg, r)
    ensures Base64.Proper(r)
  {
  }

  /** What stands where the reading has come to. */
  lemma ReadingSees(memory: seq<byte>, text: seq<byte>, start: nat, p: nat, binaryLength: nat, r: Register)
    requires Reading(memory, text, start, p, binaryLength, r)
    ensures start <= p <= |text| < |memory| && binaryLength <= p - start && Base64.Proper(r)
    ensures memory[p] == Peek(text, p) && memory[|text|] == NUL
    ensures forall k | p <= k < |text| :: memory[k] == text[k]
  {
  }

  /** A step that ends the loop gives the whole result. */
  lemma ReadingEnds(memory: seq<byte>, text: seq<byte>, start: nat, p: nat, binaryLength: nat, r: Register, d: Decoded)
    requires Reading(memory, text, start, p, binaryLength, r) && Decode(r, From(text, p)) == d
    ensures d.Invalid? ==> Decode(EMPTY, From(text, start)).Invalid?
    ensures d.Decoded? ==>
              Decode(EMPTY, From(text, start)) == Decoded(memory[..binaryLength] + d.bytes, d.padded, p - start + d.end)
  {
    hide Decode, From;
  }

  /** What the loop leaves: the decoded bytes in front, and the text from p on. */
  ghost predicate Poured(memory: seq<byte>, text: seq<byte>, start: nat, p: nat, binaryLength: nat, padding: nat) {
    && start <= p <= |text| < |memory| && padding <= 1 && binaryLength <= |text|
    && Decode(EMPTY, From(text, start)) == Decoded(memory[..binaryLength], padding == 1, p - start)
    && forall k | p <= k < |text| :: memory[k] == text[k]
  }

  /** Decodes the characters from `start` on into the front of the buffer they stand in. */
  method DecodeBody(file: array<byte>, start: nat, ghost text: seq<byte>)
    returns (ok: bool, binaryLength: nat, padding: nat, p: nat)
    requires 0 < start <= |text| < file.Length && file[..|text|] == text && file[|text|] == NUL
    modifies file
    ensures ok == Decode(EMPTY, From(text, start)).Decoded?
    ensures ok ==> Poured(file[..], text, start, p, binaryLength, padding)
    ensures forall k | |text| <= k < file.Length :: file[k] == old(file[k])
  {
    hide Decode, From, Shifted, Holds, Reading, Index, Blank, Later;
    ok, binaryLength, padding, p := true, 0, 0, start;
    var shiftReg, numBits := 0, 0;
    ghost var r := EMPTY;
    ReadingStarts(text, file[..], start);
    EmptyHolds();
    ReadingSees(file[..], text, start, p, binaryLength, r);
    while file[p] != NUL && file[p] != MINUS
      invariant p <= |text| && Reading(file[..], text, start, p, binaryLength, r)
      invariant Holds(shiftReg, r) && numBits == r.numBits
      invariant padding == 0 && ok
      invariant forall k | |text| <= k < file.Length :: file[k] == old(file[k])
      decreases |text| - p
    {
      ghost var memory := file[..];
      ReadingSees(memory, text, start, p, binaryLength, r);
      var c := file[p];
      if Blank(c) {
        BlankStep(r, text, p);
        ReadingGoesOn(memory, text, start, p, binaryLength, r, memory, [], r);
        p := p + 1;
        ReadingSees(memory, text, start, p, binaryLength, r);
        continue;
      }
      var index := 0;
      if c != EQUALS {
        LetterStep(r, text, p);
        index := Index(c);
        if index < 0 {
          ReadingEnds(memory, text, start, p, binaryLength, r, Invalid);
          return false, binaryLength, padding, p;
        }
      } else {
        PadStep(r, text, p);
        padding := padding + 1;
      }
      ghost var before := binaryLength;
      shiftReg, numBits, binaryLength := ShiftIn(file, shiftReg, numBits, index % 64, binaryLength, r);
      ghost var pushed := Shifted(r, index % 64).0;
      assert |pushed| <= 1 by { AtMostOne(r, index % 64); }
      if c == EQUALS {
        ReadingEnds(memory, text, start, p, before, r, Decoded(pushed, true, 0));
        return;
      }
      ReadingGoesOn(memory, text, start, p, before, r, file[..], pushed, Shifted(r, index % 64).1);
      r := Shifted(r, index % 64).1;
      p := p + 1;
      ReadingSees(file[..], text, start, p, binaryLength, r);
    }
    ReadingSees(file[..], text, start, p, binaryLength, r);
    StopStep(r, text, p);
    ReadingEnds(file[..], text, start, p, binaryLength, r, Decoded([], false, 0));
    assert file[..binaryLength] + [] == file[..binaryLength];
  }

  lemma EmptyHolds()
    ensures Holds(0, EMPTY)
  {
  }

  lemma AtMostOne(r: Register, index: nat)
    requires Base64.Proper(r) && index < 64
    ensures |Shifted(r, index).0| <= 1
  {
  }

  /** Past the first marker and the blanks behind it. */
  method FindBody(file: array<byte>, length: nat, pLabel: Option<seq<byte>>) returns (body: Option<nat>)
    requires length < file.Length && file[length] == NUL
    ensures body == BodyAt(file[..length], pLabel)
  {
    hide PassMarker, FindDashes, IsSpaceOrTab, IsLineEnd, SkipLineEnds, SkipBlanks;
    ghost var text := file[..length];
    var pText := PassMarker(file[..length], 0, BEGIN, pLabel);
    if pText.None? {
      return None;
    }
    var dashes := FindDashes(file[..length], pText.value);
    if dashes.None? {
      return None;
    }
    var p := dashes.value + 5;
    assert IsSpaceOrTab(NUL) == IsLineEnd(NUL) == false by { NulIsNotBlank(); }
    while IsSpaceOrTab(file[p])
      invariant p <= length && SkipSpaces(text, dashes.value + 5) == SkipSpaces(text, p)
      decreases length - p
    {
      p := p + 1;
    }
    if !IsLineEnd(file[p]) {
      return None;
    }
    p := PastBlanks(file, length, p);
    return Some(p);
  }

  /** Past line ends, and then past blanks of both kinds. */
  method PastBlanks(file: array<byte>, length: nat, r: nat) returns (p: nat)
    requires r <= length < file.Length && file[length] == NUL
    ensures p == SkipBlanks(file[..length], SkipLineEnds(file[..length], r)) <= length
  {
    hide IsSpaceOrTab, IsLineEnd;
    ghost var text := file[..length];
    assert IsSpaceOrTab(NUL) == IsLineEnd(NUL) == false by { NulIsNotBlank(); }
    p := r;
    while IsLineEnd(file[p])
      invariant p <= length && SkipLineEnds(text, r) == SkipLineEnds(text, p)
      decreases length - p
    {
      p := p + 1;
    }
    ghost var m := p;
    while IsLineEnd(file[p]) || IsSpaceOrTab(file[p])
      invariant p <= length && SkipBlanks(text, m) == SkipBlanks(text, p)
      decreases length - p
    {
      p := p + 1;
    }
  }

  lemma NulIsNotBlank()
    ensures IsSpaceOrTab(NUL) == IsLineEnd(NUL) == false
  {
  }

  /** Turns a PEM text into the bytes it encodes, in place, and reports how many they are. */
  method PemToDer(file: array<byte>, length: nat, pLabel: Option<seq<byte>>) returns (derLength: nat)
    requires length < file.Length && file[length] == NUL && NulFree(file[..length])
    modifies file
    ensures derLength == Reported(old(Converted(file[..length], pLabel)))
    ensures old(Converted(file[..length], pLabel)).Some? ==>
              var bytes := old(Converted(file[..length], pLabel)).value.bytes;
              |bytes| <= length && file[..|bytes|] == bytes
    ensures file[length..] == old(file[length..])
  {
    hide PassMarker, FindDashes, EndsWell, Decode, SkipSpaces, SkipLineEnds, SkipBlanks, From, Poured, NulFree;
    ghost var text := file[..length];
    var p := FindBody(file, length, pLabel);
    if p.None? {
      return 0;
    }
    BodyInside(text, pLabel);
    var ok, binaryLength, padding, q := DecodeBody(file, p.value, text);
    assert file[length..] == old(file[length..]);
    if !ok {
      return 0;
    }
    PouredSame(file[..], text, p.value, q, binaryLength, padding);
    SameEnd(file[..length], text, q, pLabel);
    if !EndsWell(file[..length], q, pLabel) {
      return 0;
    }
    derLength := (binaryLength - padding) % SIZE_LIMIT;
  }

  lemma PouredSame(memory: seq<byte>, text: seq<byte>, start: nat, p: nat, binaryLength: nat, padding: nat)
    requires Poured(memory, text, start, p, binaryLength, padding)
    ensures SameFrom(memory[..|text|], text, p) && padding <= 1 && binaryLength <= |text| < |memory| && start <= p
    ensures Decode(EMPTY, From(text, start)) == Decoded(memory[..binaryLength], padding == 1, p - start)
  {
  }

  /** A body begins behind the first marker and not behind the text. */
  lemma BodyInside(text: seq<byte>, pLabel: Option<seq<byte>>)
    requires BodyAt(text, pLabel).Some?
    ensures 0 < BodyAt(text, pLabel).value <= |text|
  {
    hide FindDashes, From;
    var r := SkipSpaces(text, FindDashes(text, PassMarker(text, 0, BEGIN, pLabel).value).value + 5);
    LineEndsInside(text, r);
    BlanksInside(text, SkipLineEnds(text, r));
  }

  lemma {:induction false} LineEndsInside(text: seq<byte>, i: nat)
    requires i <= |text|
    ensures SkipLineEnds(text, i) <= |text|
    decreases |text| - i
  {
    if IsLineEnd(Peek(text, i)) {
      LineEndsInside(text, i + 1);
    }
  }

  lemma {:induction false} BlanksInside(text: seq<byte>, i: nat)
    requires i <= |text|
    ensures SkipBlanks(text, i) <= |text|
    decreases |text| - i
  {
    if Blank(Peek(text, i)) {
      BlanksInside(text, i + 1);
    }
  }
}
