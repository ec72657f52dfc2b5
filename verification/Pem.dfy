/**
 PEM texts (RFC 7468) as firmware/src/at_cmd_engine/at_cmds/at_cmd_pkcs.c turns them into DER, in
 place: its caller passes the same buffer for the text and for the bytes.
 */
module Pem {
  import opened Bytes
  import opened Base64

  const DASHES: seq<byte> := [MINUS, MINUS, MINUS, MINUS, MINUS]
  /** "-----BEGIN " */
  const BEGIN: seq<byte> := DASHES + [0x42, 0x45, 0x47, 0x49, 0x4E, SPACE]
  /** "-----END " */
  const END: seq<byte> := DASHES + [0x45, 0x4E, 0x44, SPACE]

  // ----- A C string -----

  function From(text: seq<byte>, i: nat): seq<byte> {
    if i <= |text| then text[i..] else []
  }

  /** Where five dashes first stand at or after i (`strstr`). */
  function FindDashes(text: seq<byte>, i: nat): (j: Option<nat>)
    ensures j.Some? ==> i <= j.value && At(text, j.value, DASHES)
    decreases |text| - i
  {
    if i + 5 > |text| then None
    else if At(text, i, DASHES) then Some(i)
    else FindDashes(text, i + 1)
  }

  lemma {:induction false} FindsDashes(text: seq<byte>, i: nat, q: nat)
    requires i <= q && At(text, q, DASHES)
    ensures FindDashes(text, i).Some? && FindDashes(text, i).value <= q
    decreases q - i
  {
    if i < q {
      FindsDashes(text, i + 1, q);
    }
  }

  lemma {:induction false} FirstDashes(text: seq<byte>, i: nat, q: nat)
    requires i <= q && At(text, q, DASHES) && forall k | i <= k < q :: text[k] != MINUS
    ensures FindDashes(text, i) == Some(q)
    decreases q - i
  {
    if i < q {
      assert text[i..i + 5][0] == text[i];
      FirstDashes(text, i + 1, q);
    }
  }

  function SkipSpaces(text: seq<byte>, i: nat): (j: nat)
    ensures i <= j
    decreases |text| - i
  {
    if IsSpaceOrTab(Peek(text, i)) then SkipSpaces(text, i + 1) else i
  }

  function SkipLineEnds(text: seq<byte>, i: nat): (j: nat)
    ensures i <= j
    decreases |text| - i
  {
    if IsLineEnd(Peek(text, i)) then SkipLineEnds(text, i + 1) else i
  }

  function SkipBlanks(text: seq<byte>, i: nat): (j: nat)
    ensures i <= j
    decreases |text| - i
  {
    if Blank(Peek(text, i)) then SkipBlanks(text, i + 1) else i
  }

  // ----- What the source computes -----

  function LabelLength(pLabel: Option<seq<byte>>): nat {
    if pLabel.None? then 0 else |pLabel.value|
  }

  /** Past a marker and the label behind it; the comparisons refuse only texts that end right there. */
  function PassMarker(text: seq<byte>, i: nat, marker: seq<byte>, pLabel: Option<seq<byte>>): Option<nat> {
    if From(text, i) == marker then None
    else if pLabel.Some? && From(text, i + |marker|) == pLabel.value then None
    else Some(i + |marker| + LabelLength(pLabel))
  }

  /** Where the characters of the encoding begin. */
  function BodyAt(text: seq<byte>, pLabel: Option<seq<byte>>): Option<nat> {
    var p := PassMarker(text, 0, BEGIN, pLabel);
    if p.None? then None
    else
      var q := FindDashes(text, p.value);
      if q.None? then None
      else
        var r := SkipSpaces(text, q.value + 5);
        if !IsLineEnd(Peek(text, r)) then None else Some(SkipBlanks(text, SkipLineEnds(text, r)))
  }

  /** Whether what follows the encoding, from i on, is taken for the end marker. */
  predicate EndsWell(text: seq<byte>, i: nat, pLabel: Option<seq<byte>>) {
    var p := PassMarker(text, i, END, pLabel);
    p.Some? && FindDashes(text, p.value).Some?
  }

  /** What the conversion writes, unless it refuses the text. */
  function Converted(text: seq<byte>, pLabel: Option<seq<byte>>): (d: Option<Decoded>)
    ensures d.Some? ==> d.value.Decoded?
  {
    var p := BodyAt(text, pLabel);
    if p.None? then None
    else
      var d := Decode(EMPTY, From(text, p.value));
      if d.Invalid? || !EndsWell(text, p.value + d.end, pLabel) then None else Some(d)
  }

  const SIZE_LIMIT := 0x1_0000_0000

  /** The length it reports: the written bytes but for the padding, as a `size_t`; 0 for a refused text. */
  function Reported(d: Option<Decoded>): nat
    requires d.Some? ==> d.value.Decoded?
  {
    if d.None? then 0 else (|d.value.bytes| - if d.value.padded then 1 else 0) % SIZE_LIMIT
  }

  /** Only characters that go out as bytes stand between an empty register and its first byte. */
  lemma {:induction false} EmptyPadding(text: seq<byte>)
    requires Decode(EMPTY, text).Decoded?
    ensures var d := Decode(EMPTY, text);
            d.padded && d.bytes == [] <==> Stripped(text) != [] && Stripped(text)[0] == EQUALS
    decreases |text|
  {
    if text != [] && text[0] != MINUS && text[0] != NUL {
      if Blank(text[0]) {
        EmptyPadding(text[1..]);
      } else if text[0] != EQUALS {
        var p := Shifted(EMPTY, Index(text[0]) % 64);
        WaitingComesOut(p.1, text[1..]);
      }
    }
  }

  /** What waits in the register comes out before padding is accepted. */
  lemma {:induction false} WaitingComesOut(r: Register, text: seq<byte>)
    requires Proper(r) && r.numBits > 0 && Decode(r, text).Decoded?
    ensures Decode(r, text).padded ==> Decode(r, text).bytes != []
    decreases |text|
  {
    hide Index;
    if text != [] && Blank(text[0]) {
      WaitingComesOut(r, text[1..]);
    }
  }

  /** The length reported for an accepted text is never more than what was written, unless it wraps around: when the first
      character of the encoding that is not blank is `=`, and only then. */
  lemma LengthWraps(text: seq<byte>, pLabel: Option<seq<byte>>)
    requires Converted(text, pLabel).Some?
    requires |Converted(text, pLabel).value.bytes| < SIZE_LIMIT
    ensures var body := Stripped(From(text, BodyAt(text, pLabel).value));
            var d := Converted(text, pLabel);
            && (Reported(d) > |d.value.bytes| <==> body != [] && body[0] == EQUALS)
            && (Reported(d) > |d.value.bytes| ==> Reported(d) == SIZE_LIMIT - 1)
  {
    hide Decode, Stripped, BodyAt, EndsWell, From;
    EmptyPadding(From(text, BodyAt(text, pLabel).value));
  }

  // ----- Exactly which texts are accepted -----

  /** Five dashes at i. */
  predicate DashesAt(text: seq<byte>, i: nat) {
    i + 5 <= |text| && text[i] == 45 && text[i + 1] == 45 && text[i + 2] == 45 && text[i + 3] == 45 && text[i + 4] == 45
  }

  lemma DashesAgree(text: seq<byte>, i: nat)
    ensures DashesAt(text, i) <==> At(text, i, DASHES)
  {
    if i + 5 <= |text| {
      var t := text[i..i + 5];
      assert t[0] == text[i] && t[1] == text[i + 1] && t[2] == text[i + 2] && t[3] == text[i + 3] && t[4] == text[i + 4];
      if DashesAt(text, i) {
        assert t == DASHES;
      }
    }
  }

  ghost predicate FirstDashesAt(text: seq<byte>, from: nat, q: nat) {
    from <= q && DashesAt(text, q) && forall k :: from <= k < q ==> !DashesAt(text, k)
  }

  /** `strstr` finds the first dashes, if there are any. */
  lemma {:induction false} FindsExactly(text: seq<byte>, i: nat, q: nat)
    ensures FindDashes(text, i) == Some(q) <==> FirstDashesAt(text, i, q)
    ensures FindDashes(text, i).None? <==> forall k :: i <= k ==> !DashesAt(text, k)
    decreases |text| - i
  {
    hide DashesAt, At;
    forall k: nat ensures DashesAt(text, k) <==> At(text, k, DASHES) { DashesAgree(text, k); }
    if i + 5 > |text| {
      forall k: nat | i <= k ensures !At(text, k, DASHES) { TooLate(text, k); }
    } else if !At(text, i, DASHES) {
      FindsExactly(text, i + 1, q);
    }
  }

  lemma TooLate(text: seq<byte>, k: nat)
    requires k + 5 > |text|
    ensures !At(text, k, DASHES)
  {
  }

  /** A character of a text that ends in a NUL. */
  predicate SpaceAt(text: seq<byte>, i: nat) { i < |text| && (text[i] == 32 || text[i] == 9) }

  predicate LineEndAt(text: seq<byte>, i: nat) { i < |text| && (text[i] == 10 || text[i] == 13) }

  predicate BlankAt(text: seq<byte>, i: nat) { SpaceAt(text, i) || LineEndAt(text, i) }

  /** The first dashes behind 11 bytes and the label; spaces and tabs; a line end; and blanks. */
  ghost predicate BodyParts(text: seq<byte>, n: nat, q: nat, r: nat, p: nat) {
    && FirstDashesAt(text, 11 + n, q)
    && q + 5 <= r && (forall k :: q + 5 <= k < r ==> SpaceAt(text, k)) && LineEndAt(text, r)
    && r <= p <= |text| && (forall k :: r <= k < p ==> BlankAt(text, k)) && !BlankAt(text, p)
  }

  /** Behind them an encoding, and dashes again, at least 9 bytes and the label behind where the encoding ends. */
  ghost predicate PartsAt(text: seq<byte>, n: nat, q: nat, r: nat, p: nat, z: nat, d: Decoded) {
    && BodyParts(text, n, q, r, p)
    && d.Decoded? && d == Decode(EMPTY, text[p..])
    && p + d.end + 9 + n <= z && DashesAt(text, z)
  }

  ghost predicate Accepted(text: seq<byte>, n: nat, d: Decoded) {
    exists q: nat, r: nat, p: nat, z: nat :: PartsAt(text, n, q, r, p, z, d)
  }

  lemma {:induction false} SpacesExactly(text: seq<byte>, i: nat, r: nat)
    ensures SkipSpaces(text, i) == r <==> i <= r && (forall k :: i <= k < r ==> SpaceAt(text, k)) && !SpaceAt(text, r)
    decreases |text| - i
  {
    if SpaceAt(text, i) {
      SpacesExactly(text, i + 1, r);
    }
  }

  lemma {:induction false} LineEndsExactly(text: seq<byte>, i: nat)
    ensures var r := SkipLineEnds(text, i); forall k :: i <= k < r ==> LineEndAt(text, k)
    decreases |text| - i
  {
    if LineEndAt(text, i) {
      LineEndsExactly(text, i + 1);
    }
  }

  lemma {:induction false} BlanksExactly(text: seq<byte>, i: nat, r: nat)
    ensures SkipBlanks(text, i) == r <==> i <= r && (forall k :: i <= k < r ==> BlankAt(text, k)) && !BlankAt(text, r)
    decreases |text| - i
  {
    if BlankAt(text, i) {
      BlanksExactly(text, i + 1, r);
    }
  }

  /** The comparisons with a marker and a label never refuse a text that has dashes behind them. */
  lemma PassesMarker(text: seq<byte>, i: nat, marker: seq<byte>, pLabel: Option<seq<byte>>, z: nat)
    requires i + |marker| + LabelLength(pLabel) <= z && DashesAt(text, z)
    ensures PassMarker(text, i, marker, pLabel) == Some(i + |marker| + LabelLength(pLabel))
  {
    MarkerPasses(text, i, marker, pLabel);
  }

  lemma BodyFoundAt(text: seq<byte>, pLabel: Option<seq<byte>>, p: nat) returns (q: nat, r: nat)
    requires BodyAt(text, pLabel) == Some(p) && p <= |text|
    ensures BodyParts(text, LabelLength(pLabel), q, r, p)
  {
    hide FindDashes, SkipSpaces, SkipLineEnds, SkipBlanks, FirstDashesAt;
    q := FindDashes(text, 11 + LabelLength(pLabel)).value;
    FindsExactly(text, 11 + LabelLength(pLabel), q);
    r := SkipSpaces(text, q + 5);
    SpacesExactly(text, q + 5, r);
    LineEndsExactly(text, r);
    BlanksExactly(text, SkipLineEnds(text, r), p);
  }

  lemma BodyIsAt(text: seq<byte>, pLabel: Option<seq<byte>>, q: nat, r: nat, p: nat)
    requires BodyParts(text, LabelLength(pLabel), q, r, p)
    ensures BodyAt(text, pLabel) == Some(p)
  {
    hide FindDashes, SkipSpaces, SkipLineEnds, SkipBlanks, PassMarker;
    PassesMarker(text, 0, BEGIN, pLabel, q);
    FindsExactly(text, 11 + LabelLength(pLabel), q);
    SpacesExactly(text, q + 5, r);
    LineEndsExactly(text, r);
    var m := SkipLineEnds(text, r);
    assert m <= p by { assert m > p ==> LineEndAt(text, p); }
    BlanksExactly(text, m, p);
  }

  lemma BodyIsInside(text: seq<byte>, pLabel: Option<seq<byte>>)
    requires BodyAt(text, pLabel).Some?
    ensures BodyAt(text, pLabel).value <= |text|
  {
    hide FindDashes, SkipSpaces, SkipLineEnds, SkipBlanks, PassMarker;
    var r := SkipSpaces(text, FindDashes(text, PassMarker(text, 0, BEGIN, pLabel).value).value + 5);
    LineEndsExactly(text, r);
    var m := SkipLineEnds(text, r);
    assert m > r ==> LineEndAt(text, m - 1);
    BlanksExactly(text, m, SkipBlanks(text, m));
    assert SkipBlanks(text, m) > m ==> BlankAt(text, SkipBlanks(text, m) - 1);
  }

  lemma EndExactly(text: seq<byte>, i: nat, pLabel: Option<seq<byte>>)
    ensures EndsWell(text, i, pLabel) <==> exists z: nat :: i + 9 + LabelLength(pLabel) <= z && DashesAt(text, z)
  {
    hide FindDashes, DashesAt, PassMarker;
    var from := i + 9 + LabelLength(pLabel);
    if z: nat :| from <= z && DashesAt(text, z) {
      PassesMarker(text, i, END, pLabel, z);
      FindsExactly(text, from, z);
    }
    if EndsWell(text, i, pLabel) {
      PassedMarker(text, i, END, pLabel);
      FindsExactly(text, from, FindDashes(text, from).value);
    }
  }

  lemma PassedMarker(text: seq<byte>, i: nat, marker: seq<byte>, pLabel: Option<seq<byte>>)
    requires PassMarker(text, i, marker, pLabel).Some?
    ensures PassMarker(text, i, marker, pLabel).value == i + |marker| + LabelLength(pLabel)
  {
  }

  /** A text is converted exactly when it has these parts, whatever its markers and labels say; all else is refused. */
  lemma PemExactly(text: seq<byte>, pLabel: Option<seq<byte>>, d: Decoded)
    ensures Converted(text, pLabel) == Some(d) <==> Accepted(text, LabelLength(pLabel), d)
  {
    hide BodyAt, EndsWell, Decode, DashesAt, FirstDashesAt, SpaceAt, LineEndAt, BlankAt, BodyParts;
    if Converted(text, pLabel) == Some(d) {
      var p := BodyAt(text, pLabel).value;
      BodyIsInside(text, pLabel);
      var q, r := BodyFoundAt(text, pLabel, p);
      EndExactly(text, p + d.end, pLabel);
      var z: nat :| p + d.end + 9 + LabelLength(pLabel) <= z && DashesAt(text, z);
      assert PartsAt(text, LabelLength(pLabel), q, r, p, z, d);
    }
    if Accepted(text, LabelLength(pLabel), d) {
      var q: nat, r: nat, p: nat, z: nat :| PartsAt(text, LabelLength(pLabel), q, r, p, z, d);
      BodyIsAt(text, pLabel, q, r, p);
      BodyIsInside(text, pLabel);
      EndExactly(text, p + d.end, pLabel);
    }
  }

  /** A refused text is reported as 0 bytes, an accepted one as the bytes but for one where there is padding. */
  lemma ReportedExactly(text: seq<byte>, pLabel: Option<seq<byte>>)
    ensures (forall d :: !Accepted(text, LabelLength(pLabel), d)) ==> Reported(Converted(text, pLabel)) == 0
    ensures forall d :: Accepted(text, LabelLength(pLabel), d) && 0 < |d.bytes| < 4294967296 ==>
                          Reported(Converted(text, pLabel)) == |d.bytes| - (if d.padded then 1 else 0)
  {
    hide Accepted, Converted;
    forall d ensures Converted(text, pLabel) == Some(d) <==> Accepted(text, LabelLength(pLabel), d) {
      PemExactly(text, pLabel, d);
    }
    if Converted(text, pLabel).Some? {
      assert Accepted(text, LabelLength(pLabel), Converted(text, pLabel).value);
    }
  }

  // ----- Every well-formed text is understood -----

  predicate AllSpaces(t: seq<byte>) {
    forall i | 0 <= i < |t| :: IsSpaceOrTab(t[i])
  }

  predicate DashFree(t: seq<byte>) {
    MINUS !in t
  }

  /** A PEM text: markers with the label, blanks and a line end behind the first, the body, and anything at the end. */
  function PemText(name: seq<byte>, spaces: seq<byte>, lineEnd: byte, body: seq<byte>, tail: seq<byte>): seq<byte> {
    BEGIN + name + DASHES + spaces + [lineEnd] + body + END + name + DASHES + tail
  }

  lemma {:induction false} SpacesSkipped(text: seq<byte>, i: nat, j: nat)
    requires i <= j && forall k | i <= k < j :: IsSpaceOrTab(Peek(text, k))
    requires !IsSpaceOrTab(Peek(text, j))
    ensures SkipSpaces(text, i) == j
    decreases j - i
  {
    if i < j {
      SpacesSkipped(text, i + 1, j);
    }
  }

  /** Skipping stops in the body or at the end marker. */
  lemma {:induction false} LineEndsSkipped(text: seq<byte>, i: nat, end: nat)
    requires i <= end && !Blank(Peek(text, end))
    ensures SkipLineEnds(text, i) <= end
    ensures forall k | i <= k < SkipLineEnds(text, i) :: Blank(Peek(text, k))
    decreases end - i
  {
    if i < end && IsLineEnd(Peek(text, i)) {
      LineEndsSkipped(text, i + 1, end);
    }
  }

  lemma {:induction false} BlanksSkipped(text: seq<byte>, i: nat, end: nat)
    requires i <= end && !Blank(Peek(text, end))
    ensures SkipBlanks(text, i) <= end
    ensures forall k | i <= k < SkipBlanks(text, i) :: Blank(Peek(text, k))
    decreases end - i
  {
    if i < end && Blank(Peek(text, i)) {
      BlanksSkipped(text, i + 1, end);
    }
  }

  lemma {:induction false} StrippedAfterBlanks(body: seq<byte>, n: nat)
    requires n <= |body| && forall k | 0 <= k < n :: Blank(body[k])
    ensures Stripped(body[n..]) == Stripped(body)
  {
    hide Blank;
    if n > 0 {
      assert body[1..][n - 1..] == body[n..];
      StrippedAfterBlanks(body[1..], n - 1);
      assert [] + Stripped(body[1..]) == Stripped(body[1..]);
    }
  }

  /** Decoding stops inside the body. */
  lemma {:induction false} DecodeStays(r: Register, body: seq<byte>, rest: seq<byte>)
    requires Base64.Proper(r) && rest != [] && rest[0] == MINUS
    ensures Decode(r, body + rest).Decoded? ==> Decode(r, body + rest).end <= |body|
    decreases |body|
  {
    hide Shifted, Blank, Index;
    if body == [] {
      assert body + rest == rest;
    } else {
      assert (body + rest)[1..] == body[1..] + rest;
      var c := body[0];
      if Blank(c) {
        DecodeStays(r, body[1..], rest);
      } else if c != MINUS && c != NUL && c != EQUALS && Index(c) >= 0 {
        DecodeStays(Shifted(r, Index(c) % 64).1, body[1..], rest);
      }
    }
  }

  /** A piece of a text stands behind what precedes it. */
  lemma Piece(before: seq<byte>, piece: seq<byte>, behind: seq<byte>)
    ensures At(before + piece + behind, |before|, piece)
    ensures |before + piece + behind| == |before| + |piece| + |behind|
    ensures From(before + piece + behind, |before| + |piece|) == behind
    ensures forall k | 0 <= k < |piece| :: (before + piece + behind)[|before| + k] == piece[k]
  {
  }

  /** The comparison with the label looks at the whole rest of the text, so it never finds it. */
  lemma MarkerPasses(text: seq<byte>, i: nat, marker: seq<byte>, pLabel: Option<seq<byte>>)
    requires i + |marker| + LabelLength(pLabel) < |text|
    ensures PassMarker(text, i, marker, pLabel) == Some(i + |marker| + LabelLength(pLabel))
  {
  }

  ghost predicate Labels(pLabel: Option<seq<byte>>, name: seq<byte>) {
    pLabel == None || pLabel == Some(name)
  }

  lemma FirstMarkerEnds(name: seq<byte>, rest: seq<byte>, pLabel: Option<seq<byte>>)
    requires DashFree(name) && Labels(pLabel, name)
    ensures var text := BEGIN + name + DASHES + rest;
            var p := PassMarker(text, 0, BEGIN, pLabel);
            p.Some? && FindDashes(text, p.value) == Some(|BEGIN| + |name|)
  {
    hide PassMarker, FindDashes, At, From;
    var text := BEGIN + name + DASHES + rest;
    assert |text| == 11 + |name| + 5 + |rest|;
    MarkerPasses(text, 0, BEGIN, pLabel);
    Piece(BEGIN + name, DASHES, rest);
    assert text == BEGIN + name + (DASHES + rest);
    Piece(BEGIN, name, DASHES + rest);
    forall k | 11 <= k < 11 + |name|
      ensures text[k] != MINUS
    {
      assert text[|BEGIN| + (k - 11)] == name[k - 11];
    }
    FirstDashes(text, |BEGIN| + LabelLength(pLabel), |BEGIN| + |name|);
  }

  lemma LastMarkerEnds(before: seq<byte>, name: seq<byte>, tail: seq<byte>, i: nat, pLabel: Option<seq<byte>>)
    requires Labels(pLabel, name) && i <= |before|
    ensures EndsWell(before + END + name + DASHES + tail, i, pLabel)
  {
    hide PassMarker, FindDashes, At, From;
    var text := before + END + name + DASHES + tail;
    assert |text| == |before| + |END| + |name| + 5 + |tail|;
    MarkerPasses(text, i, END, pLabel);
    Piece(before + END + name, DASHES, tail);
    FindsDashes(text, i + |END| + LabelLength(pLabel), |before| + |END| + |name|);
  }

  /** Spaces up to d, a line end there, then the body, then something that is not blank. */
  ghost predicate Shaped(text: seq<byte>, a: nat, d: nat, body: seq<byte>) {
    && a <= d
    && (forall k | a <= k < d :: IsSpaceOrTab(Peek(text, k)))
    && IsLineEnd(Peek(text, d))
    && (forall k | d + 1 <= k < d + 1 + |body| :: Peek(text, k) == body[k - d - 1])
    && !Blank(Peek(text, d + 1 + |body|))
  }

  lemma TextIsShaped(start: seq<byte>, spaces: seq<byte>, lineEnd: byte, body: seq<byte>, rest: seq<byte>)
    requires AllSpaces(spaces) && IsLineEnd(lineEnd) && rest != [] && rest[0] == MINUS
    ensures Shaped(start + spaces + [lineEnd] + body + rest, |start|, |start| + |spaces|, body)
  {
    var text, d := start + spaces + [lineEnd] + body + rest, |start| + |spaces|;
    forall k | |start| <= k < d
      ensures IsSpaceOrTab(Peek(text, k))
    {
      assert text[k] == spaces[k - |start|];
    }
  }

  /** The body begins where the line behind the first marker ends, or later, behind blanks. */
  lemma BodyFound(text: seq<byte>, a: nat, d: nat, body: seq<byte>)
    requires Shaped(text, a, d, body)
    ensures SkipSpaces(text, a) == d
    ensures var n := SkipBlanks(text, SkipLineEnds(text, d)) - d - 1;
            0 <= n <= |body| && Stripped(body[n..]) == Stripped(body)
  {
    hide Peek, Stripped;
    var e := d + 1;
    SpacesSkipped(text, a, d);
    LineEndsSkipped(text, d, e + |body|);
    assert SkipLineEnds(text, d) >= e;
    var m := SkipLineEnds(text, d);
    BlanksSkipped(text, m, e + |body|);
    var n := SkipBlanks(text, m) - e;
    forall k | 0 <= k < n
      ensures Blank(body[k])
    {
      assert Peek(text, e + k) == body[k];
    }
    StrippedAfterBlanks(body, n);
  }

  lemma BehindBody(start: seq<byte>, body: seq<byte>, rest: seq<byte>, n: nat)
    requires n <= |body|
    ensures From(start + body + rest, |start| + n) == body[n..] + rest
  {
  }

  /** Any bytes, encoded, spread over lines and put between markers, are given back with their length. */
  lemma PemRoundTrip(s: seq<byte>, name: seq<byte>, spaces: seq<byte>, lineEnd: byte, body: seq<byte>, tail: seq<byte>,
      pLabel: Option<seq<byte>>)
    requires Spreads(body, s) && DashFree(name) && AllSpaces(spaces) && IsLineEnd(lineEnd) && Labels(pLabel, name)
    ensures var d := Converted(PemText(name, spaces, lineEnd, body, tail), pLabel);
            && d.Some? && s <= d.value.bytes
            && (|s| < SIZE_LIMIT ==> Reported(d) == |s|)
  {
    hide PassMarker, FindDashes, EndsWell, Decode, Stripped, Encode, SkipSpaces, SkipLineEnds, SkipBlanks, From, AllSpaces, DashFree, Peek;
    var text, start, rest := PemText(name, spaces, lineEnd, body, tail), BEGIN + name + DASHES, END + name + DASHES + tail;
    var head, d := start + spaces + [lineEnd], |start| + |spaces|;
    TextParts(name, spaces, lineEnd, body, tail);
    FirstMarkerEnds(name, spaces + [lineEnd] + body + rest, pLabel);
    TextIsShaped(start, spaces, lineEnd, body, rest);
    BodyFound(text, |start|, d, body);
    var p := SkipBlanks(text, SkipLineEnds(text, d));
    var n := p - d - 1;
    assert IsLineEnd(Peek(text, d)) && BodyAt(text, pLabel) == Some(p);
    BehindBody(head, body, rest, n);
    SpreadDecodes(body[n..], s, rest);
    DecodeStays(EMPTY, body[n..], rest);
    LastMarkerEnds(head + body, name, tail, p + Decode(EMPTY, From(text, p)).end, pLabel);
  }

  lemma TextParts(name: seq<byte>, spaces: seq<byte>, lineEnd: byte, body: seq<byte>, tail: seq<byte>)
    ensures var text, start, rest := PemText(name, spaces, lineEnd, body, tail), BEGIN + name + DASHES, END + name + DASHES + tail;
            && text == start + (spaces + [lineEnd] + body + rest)
            && text == start + spaces + [lineEnd] + body + rest
            && text == (start + spaces + [lineEnd] + body) + END + name + DASHES + tail
  {
  }
}
