/**
 Well-formed string literals (section 7 of RFC 8259), written piece by piece, and what
 firmware/src/cJSON.c makes of them: the UTF-8 (section 3 of RFC 3629) of their code points.
 */
module JsonLiteral {
  import opened Bytes
  import opened JsonValue
  import opened JsonString

  datatype Piece =
    | Raw(b: byte)
    | Short(x: byte)
    | Unit(hex: seq<byte>)
    | Pair(high: seq<byte>, low: seq<byte>)

  predicate IsHex4(h: seq<byte>) {
    |h| == 4 && forall i :: 0 <= i < 4 ==> HexDigit(h[i]) >= 0
  }

  function HexValue(h: seq<byte>): (v: nat)
    requires IsHex4(h)
  {
    ((HexDigit(h[0]) * 16 + HexDigit(h[1])) * 16 + HexDigit(h[2])) * 16 + HexDigit(h[3])
  }

  /** What four bytes behind `\u` are read as: their value, or 0 if one of them is no digit. */
  function Code(h: seq<byte>): (v: nat)
    requires |h| == 4
    ensures v < 0x10000
  {
    if IsHex4(h) then HexBound(h); HexValue(h) else 0
  }

  /** The short escapes of section 7 of RFC 8259. */
  function ShortMeaning(x: byte): Option<byte> {
    match x
    case 34 => Some(34)
    case 92 => Some(92)
    case 47 => Some(47)
    case 98 => Some(8)
    case 102 => Some(12)
    case 110 => Some(10)
    case 114 => Some(13)
    case 116 => Some(9)
    case _ => None
  }

  lemma ShortsAgree(x: byte)
    ensures ShortEscape(x) == ShortMeaning(x)
  {
  }

  /** The pieces that are read: hexadecimal digits are not insisted on, and bytes may be any. */
  predicate Readable(p: Piece) {
    match p
    case Raw(b) => b != BACKSLASH
    case Short(x) => ShortMeaning(x).Some?
    case Unit(h) => |h| == 4 && !(55296 <= Code(h) <= 57343)
    case Pair(h, l) => |h| == 4 && |l| == 4 && 55296 <= Code(h) <= 56319 && 56320 <= Code(l) <= 57343
  }

  /** The pieces of RFC 8259, but that control bytes may stand for themselves. */
  predicate WellFormed(p: Piece) {
    && Readable(p)
    && match p
       case Raw(b) => b != QUOTE
       case Short(_) => true
       case Unit(h) => IsHex4(h)
       case Pair(h, l) => IsHex4(h) && IsHex4(l)
  }

  function PieceText(p: Piece): (t: seq<byte>)
    ensures t != []
  {
    match p
    case Raw(b) => [b]
    case Short(x) => [BACKSLASH, x]
    case Unit(h) => [BACKSLASH, LOWER_U] + h
    case Pair(h, l) => [BACKSLASH, LOWER_U] + h + [BACKSLASH, LOWER_U] + l
  }

  function PieceValue(p: Piece): seq<byte>
    requires Readable(p)
  {
    match p
    case Raw(b) => [b]
    case Short(x) => [ShortMeaning(x).value]
    case Unit(h) => Utf8(Code(h))
    case Pair(h, l) => Utf8(65536 + 1024 * (Code(h) - 55296) + (Code(l) - 56320))
  }

  lemma HexBound(h: seq<byte>)
    requires IsHex4(h)
    ensures HexValue(h) < 0x10000
  {
  }

  predicate AllReadable(ps: seq<Piece>) { forall i :: 0 <= i < |ps| ==> Readable(ps[i]) }

  predicate AllWellFormed(ps: seq<Piece>) { forall i :: 0 <= i < |ps| ==> WellFormed(ps[i]) }

  function LiteralText(ps: seq<Piece>): seq<byte> {
    if ps == [] then [] else PieceText(ps[0]) + LiteralText(ps[1..])
  }

  function LiteralValue(ps: seq<Piece>): seq<byte>
    requires AllReadable(ps)
  {
    if ps == [] then [] else PieceValue(ps[0]) + LiteralValue(ps[1..])
  }

  // ----- Where a literal ends -----

  /** No quote but behind a backslash, and every backslash with a byte behind it. */
  predicate Unbroken(t: seq<byte>) {
    || t == []
    || (t[0] != QUOTE && t[0] != BACKSLASH && Unbroken(t[1..]))
    || (t[0] == BACKSLASH && |t| > 1 && Unbroken(t[2..]))
  }

  /** The first pass ends at the first quote that no backslash protects. */
  lemma {:induction false} ScanIs(c: seq<byte>, p: nat, end: nat)
    requires p <= |c|
    ensures ScanFrom(c, p).End? && ScanFrom(c, p).at == end <==> p <= end < |c| && c[end] == QUOTE && Unbroken(c[p..end])
    decreases |c| - p
  {
    if p < |c| {
      if c[p] != QUOTE {
        var n := if c[p] == BACKSLASH then 2 else 1;
        if p + n <= |c| {
          ScanIs(c, p + n, end);
        }
        if p < end < |c| {
          assert c[p..end][0] == c[p];
          assert p + n <= end ==> c[p..end][n..] == c[p + n..end];
        }
      } else if p <= end < |c| {
        assert p < end ==> c[p..end][0] == QUOTE;
      }
    }
  }

  lemma {:induction false} UnbrokenConcat(a: seq<byte>, b: seq<byte>)
    requires Unbroken(a) && Unbroken(b)
    ensures Unbroken(a + b)
    decreases |a|
  {
    if a == [] {
      assert a + b == b;
    } else {
      var n := if a[0] == BACKSLASH then 2 else 1;
      UnbrokenConcat(a[n..], b);
      assert (a + b)[n..] == a[n..] + b;
    }
  }

  // ----- The pieces that are read -----

  /** One step of the second pass. */
  function DecodeStep(c: seq<byte>, p: nat, end: nat): Escape
    requires p < end < |c|
  {
    if c[p] == BACKSLASH then DecodeEscape(c, p, end) else Good([c[p]], 1)
  }

  lemma DecodeUnfolds(c: seq<byte>, p: nat, end: nat)
    requires p < end < |c|
    ensures Decode(c, p, end) ==
      var e := DecodeStep(c, p, end);
      if e.Bad? then None else Prepend(e.bytes, Decode(c, p + e.consumed, end))
    ensures DecodeStep(c, p, end).Good? ==>
      var n := DecodeStep(c, p, end).consumed; n > 0 && (p + n <= end || (n == 2 && p + 1 == end))
  {
    hide DecodeEscape;
  }

  lemma HexStands(c: seq<byte>, p: nat, h: seq<byte>)
    requires |h| == 4 && At(c, p, h)
    ensures p + 4 <= |c| && Hex4(c, p) == Code(h)
  {
    AtIndex(c, p, h, 0);
    AtIndex(c, p, h, 1);
    AtIndex(c, p, h, 2);
    AtIndex(c, p, h, 3);
  }

  /** A piece stands at p, in front of `end`; or the last one takes the closing quote for its own. */
  ghost predicate Stands(c: seq<byte>, p: nat, end: nat, piece: Piece) {
    && Readable(piece) && At(c, p, PieceText(piece))
    && (p + |PieceText(piece)| <= end || (piece == Short(QUOTE) && p + 1 == end))
  }

  lemma EscapeStep(c: seq<byte>, p: nat, end: nat)
    requires p < end < |c| && c[p] == BACKSLASH
    ensures DecodeStep(c, p, end) ==
      if c[p + 1] == LOWER_U then Utf16Escape(c, p, end)
      else if ShortMeaning(c[p + 1]).None? then Bad else Good([ShortMeaning(c[p + 1]).value], 2)
  {
    ShortsAgree(c[p + 1]);
  }

  lemma UnitSteps(c: seq<byte>, p: nat, end: nat, h: seq<byte>)
    requires p < end < |c| && Stands(c, p, end, Unit(h))
    ensures DecodeStep(c, p, end) == Good(PieceValue(Unit(h)), 6)
  {
    hide Hex4, Code, Utf8, At, Decode;
    var u: seq<byte> := [BACKSLASH, LOWER_U];
    AtConcat(c, p, u, h);
    AtIndex(c, p, u, 0);
    AtIndex(c, p, u, 1);
    EscapeStep(c, p, end);
    HexStands(c, p + 2, h);
  }

  lemma PairSteps(c: seq<byte>, p: nat, end: nat, h: seq<byte>, l: seq<byte>)
    requires p < end < |c| && Stands(c, p, end, Pair(h, l))
    ensures DecodeStep(c, p, end) == Good(PieceValue(Pair(h, l)), 12)
  {
    hide Hex4, Code, Utf8, At, Decode;
    PairParts(c, p, h, l);
    EscapeStep(c, p, end);
    HexStands(c, p + 2, h);
    HexStands(c, p + 8, l);
  }

  lemma PairParts(c: seq<byte>, p: nat, h: seq<byte>, l: seq<byte>)
    requires |h| == 4 && |l| == 4
    ensures At(c, p, PieceText(Pair(h, l))) <==>
      && p + 12 <= |c| && c[p] == BACKSLASH && c[p + 1] == LOWER_U && At(c, p + 2, h)
      && c[p + 6] == BACKSLASH && c[p + 7] == LOWER_U && At(c, p + 8, l)
  {
    var t := PieceText(Pair(h, l));
    assert t[..2] == [BACKSLASH, LOWER_U] && t[2..6] == h && t[6..8] == [BACKSLASH, LOWER_U] && t[8..] == l;
    assert t == [BACKSLASH, LOWER_U] + h + [BACKSLASH, LOWER_U] + l;
    if p + 12 <= |c| {
      var w := c[p..p + 12];
      assert w[2..6] == c[p + 2..p + 6] && w[8..] == c[p + 8..p + 12];
      assert w == w[..2] + w[2..6] + w[6..8] + w[8..];
    }
  }

  lemma PieceSteps(c: seq<byte>, p: nat, end: nat, piece: Piece)
    requires p < end < |c| && Stands(c, p, end, piece)
    ensures DecodeStep(c, p, end) == Good(PieceValue(piece), |PieceText(piece)|)
  {
    hide Utf16Escape, Decode, Utf8;
    match piece
    case Raw(b) => AtIndex(c, p, [b], 0);
    case Short(x) =>
      AtIndex(c, p, [BACKSLASH, x], 0);
      AtIndex(c, p, [BACKSLASH, x], 1);
      EscapeStep(c, p, end);
    case Unit(h) => UnitSteps(c, p, end, h);
    case Pair(h, l) => PairSteps(c, p, end, h, l);
  }

  /** What a step reads is a piece that stands there. */
  lemma StepReads(c: seq<byte>, p: nat, end: nat) returns (piece: Piece)
    requires p < end < |c| && c[end] == QUOTE && DecodeStep(c, p, end).Good?
    ensures Stands(c, p, end, piece)
    ensures DecodeStep(c, p, end) == Good(PieceValue(piece), |PieceText(piece)|)
  {
    hide Decode, Utf8, Code;
    if c[p] != BACKSLASH {
      piece := Raw(c[p]);
    } else {
      EscapeStep(c, p, end);
      if c[p + 1] != LOWER_U {
        piece := Short(c[p + 1]);
        assert c[p..p + 2] == [BACKSLASH, c[p + 1]];
      } else {
        piece := UnitReads(c, p, end);
      }
    }
  }

  lemma UnitReads(c: seq<byte>, p: nat, end: nat) returns (piece: Piece)
    requires p + 1 < end < |c| && c[p] == BACKSLASH && c[p + 1] == LOWER_U && Utf16Escape(c, p, end).Good?
    ensures Stands(c, p, end, piece)
    ensures Utf16Escape(c, p, end) == Good(PieceValue(piece), |PieceText(piece)|)
  {
    hide Hex4, Code, Utf8;
    var h := c[p + 2..p + 6];
    HexStands(c, p + 2, h);
    if IsHighSurrogate(Code(h)) {
      var l := c[p + 8..p + 12];
      HexStands(c, p + 8, l);
      piece := Pair(h, l);
      PairParts(c, p, h, l);
    } else {
      piece := Unit(h);
      assert c[p..p + 6] == [BACKSLASH, LOWER_U] + h;
    }
  }

  /** The pieces make up the content; or with the quote behind it, when a bad `\u` has hidden the backslash that protects a
      backslash in front of it. */
  predicate Reads(content: seq<byte>, ps: seq<Piece>) {
    && AllReadable(ps)
    && (LiteralText(ps) == content
        || (ps != [] && ps[|ps| - 1] == Short(QUOTE) && LiteralText(ps) == content + [QUOTE]))
  }

  lemma ReadsMore(piece: Piece, later: seq<Piece>, content: seq<byte>)
    requires Readable(piece) && Reads(content, later)
    ensures Reads(PieceText(piece) + content, [piece] + later)
    ensures LiteralValue([piece] + later) == PieceValue(piece) + LiteralValue(later)
  {
    hide Readable, PieceText, PieceValue;
    var ps := [piece] + later;
    assert ps[1..] == later;
    assert later != [] ==> ps[|ps| - 1] == later[|later| - 1];
    assert PieceText(piece) + (content + [QUOTE]) == PieceText(piece) + content + [QUOTE];
  }

  lemma ReadsLast(piece: Piece, content: seq<byte>)
    requires piece == Short(QUOTE) && PieceText(piece) == content + [QUOTE]
    ensures Reads(content, [piece]) && LiteralValue([piece]) == PieceValue(piece)
  {
    assert [piece][1..] == [] && PieceText(piece) + [] == PieceText(piece);
    assert PieceValue(piece) + [] == PieceValue(piece);
  }

  lemma {:induction false} DecodeReads(c: seq<byte>, p: nat, end: nat) returns (ps: seq<Piece>)
    requires p <= end < |c| && c[end] == QUOTE && Decode(c, p, end).Some?
    ensures Reads(c[p..end], ps) && LiteralValue(ps) == Decode(c, p, end).value
    decreases end - p
  {
    hide Decode, DecodeStep, PieceText, PieceValue, Readable, LiteralText, LiteralValue, Reads;
    if p == end {
      ps := [];
      NothingDecoded(c, end);
      NothingReads();
    } else {
      DecodeUnfolds(c, p, end);
      var piece := StepReads(c, p, end);
      var n := |PieceText(piece)|;
      if p + n <= end {
        var later := DecodeReads(c, p + n, end);
        assert c[p..end] == PieceText(piece) + c[p + n..end];
        ReadsMore(piece, later, c[p + n..end]);
        ps := [piece] + later;
      } else {
        NothingDecoded(c, end);
        assert PieceText(piece) == c[p..end] + [QUOTE];
        ReadsLast(piece, c[p..end]);
        assert PieceValue(piece) + [] == PieceValue(piece);
        ps := [piece];
      }
    }
  }

  lemma NothingReads()
    ensures Reads([], []) && LiteralValue([]) == []
  {
  }

  lemma NothingDecoded(c: seq<byte>, end: nat)
    requires end < |c|
    ensures Decode(c, end, end) == Some([]) && Decode(c, end + 1, end) == Some([])
  {
  }

  /** The first piece and what the others make up; only the last piece may go over the end. */
  lemma ReadsFirst(content: seq<byte>, ps: seq<Piece>)
    requires Reads(content, ps) && ps != []
    ensures var t := PieceText(ps[0]);
            if |t| <= |content| then content == t + content[|t|..] && Reads(content[|t|..], ps[1..])
            else ps == [Short(QUOTE)] && t == content + [QUOTE]
  {
    hide Readable, PieceText;
    var t, rest := PieceText(ps[0]), LiteralText(ps[1..]);
    assert LiteralText(ps) == t + rest && (t + rest)[..|t|] == t && (t + rest)[|t|..] == rest;
    if LiteralText(ps) == content {
      assert content[|t|..] == rest;
    } else {
      assert |ps| > 1 ==> |rest| >= |PieceText(ps[|ps| - 1])| by {
        if |ps| > 1 {
          LastText(ps[1..]);
        }
      }
      if |t| <= |content| {
        assert (content + [QUOTE])[|t|..] == content[|t|..] + [QUOTE];
        assert (content + [QUOTE])[..|t|] == content[..|t|];
        assert |ps| > 1;
        assert ps[1..][|ps| - 2] == ps[|ps| - 1];
      } else {
        assert |rest| == 0 && |ps| == 1;
        assert t + [] == t;
      }
    }
  }

  /** The text of pieces is no shorter than that of the last. */
  lemma {:induction false} LastText(ps: seq<Piece>)
    requires ps != []
    ensures |LiteralText(ps)| >= |PieceText(ps[|ps| - 1])| > 0
  {
    hide PieceText;
    if |ps| > 1 {
      LastText(ps[1..]);
    }
  }

  lemma {:induction false} ReadsDecode(c: seq<byte>, p: nat, end: nat, ps: seq<Piece>)
    requires p <= end < |c| && c[end] == QUOTE && Reads(c[p..end], ps)
    ensures AllReadable(ps) && Decode(c, p, end) == Some(LiteralValue(ps))
    decreases |ps|
  {
    hide Decode, DecodeStep, PieceText, PieceValue, Readable, LiteralText, LiteralValue;
    if ps == [] {
      NoPieces(c[p..end], ps);
      NothingDecoded(c, end);
    } else {
      var t, content := PieceText(ps[0]), c[p..end];
      var n := |t|;
      ReadsFirst(content, ps);
      PieceInFront(c, p, end, ps[0]);
      PieceSteps(c, p, end, ps[0]);
      DecodeUnfolds(c, p, end);
      ValueOfFirst(ps);
      if n <= |content| {
        assert content[n..] == c[p + n..end];
        ReadsDecode(c, p + n, end, ps[1..]);
      } else {
        NothingDecoded(c, end);
      }
    }
  }

  lemma NoPieces(content: seq<byte>, ps: seq<Piece>)
    requires Reads(content, ps) && ps == []
    ensures content == [] && AllReadable(ps) && LiteralValue(ps) == []
  {
  }

  lemma ValueOfFirst(ps: seq<Piece>)
    requires ps != [] && AllReadable(ps)
    ensures Readable(ps[0]) && AllReadable(ps[1..]) && LiteralValue(ps) == PieceValue(ps[0]) + LiteralValue(ps[1..])
    ensures |ps| == 1 ==> LiteralValue(ps[1..]) == []
  {
    hide Readable, PieceValue;
  }

  lemma PieceInFront(c: seq<byte>, p: nat, end: nat, piece: Piece)
    requires p <= end < |c| && c[end] == QUOTE && Readable(piece)
    requires var content, t := c[p..end], PieceText(piece);
             if |t| <= |content| then content == t + content[|t|..] else piece == Short(QUOTE) && t == content + [QUOTE]
    ensures p < end && Stands(c, p, end, piece)
  {
    hide Readable;
    var content, t := c[p..end], PieceText(piece);
    if |t| <= |content| {
      assert content[..|t|] == c[p..p + |t|];
    } else {
      assert c[p..end + 1] == content + [QUOTE];
    }
  }

  // ----- Whole literals -----

  /** What stands between the quotes, and the pieces it is read in. */
  datatype Quotation = Quotation(content: seq<byte>, pieces: seq<Piece>)

  /** What `parse_string` accepts: the closing quote is the first that no backslash protects, and the content is made of
      pieces that can be read. */
  predicate Quotable(q: Quotation) { Unbroken(q.content) && Reads(q.content, q.pieces) }

  function QuotationText(q: Quotation): (t: seq<byte>)
    ensures |t| == |q.content| + 2
  {
    [QUOTE] + (q.content + [QUOTE])
  }

  function QuotationValue(q: Quotation): seq<byte>
    requires Quotable(q)
  {
    LiteralValue(q.pieces)
  }

  lemma QuotationReads(c: seq<byte>, off: nat, q: Quotation)
    requires Quotable(q) && At(c, off, QuotationText(q))
    ensures off < |c| && ParseStringAt(c, off) == Literal(QuotationValue(q), off + |QuotationText(q)|)
  {
    hide At, Unbroken, Reads, Decode, LiteralValue, AllReadable;
    var end := off + 1 + |q.content|;
    AtConcat(c, off, [QUOTE], q.content + [QUOTE]);
    AtConcat(c, off + 1, q.content, [QUOTE]);
    AtIndex(c, off, [QUOTE], 0);
    AtIndex(c, end, [QUOTE], 0);
    assert c[off + 1..end] == q.content by { AtSlice(c, off + 1, q.content); }
    ScanIs(c, off + 1, end);
    ReadsDecode(c, off + 1, end, q.pieces);
  }

  lemma AtSlice(c: seq<byte>, off: nat, t: seq<byte>)
    ensures At(c, off, t) <==> off + |t| <= |c| && c[off..off + |t|] == t
  {
  }

  lemma QuotationDerives(c: seq<byte>, off: nat) returns (q: Quotation)
    requires off < |c| && ParseStringAt(c, off).Literal?
    ensures Quotable(q) && At(c, off, QuotationText(q))
    ensures ParseStringAt(c, off) == Literal(QuotationValue(q), off + |QuotationText(q)|)
  {
    hide Unbroken, Reads, Decode, LiteralValue, AllReadable;
    var end := ScanFrom(c, off + 1).at;
    ScanIs(c, off + 1, end);
    var ps := DecodeReads(c, off + 1, end);
    q := Quotation(c[off + 1..end], ps);
    Enclosed(c, off, end);
  }

  lemma Enclosed(c: seq<byte>, off: nat, end: nat)
    requires off < end < |c| && c[off] == QUOTE && c[end] == QUOTE
    ensures c[off..end + 1] == [QUOTE] + (c[off + 1..end] + [QUOTE])
  {
  }

  ghost predicate QuotationStands(c: seq<byte>, off: nat, value: seq<byte>, next: nat) {
    exists q :: Quotable(q) && At(c, off, QuotationText(q)) && QuotationValue(q) == value && next == off + |QuotationText(q)|
  }

  /** A string is read exactly where such a literal stands, and as its value. */
  lemma StringsExactly(c: seq<byte>, off: nat, value: seq<byte>, next: nat)
    requires off < |c|
    ensures ParseStringAt(c, off) == Literal(value, next) <==> QuotationStands(c, off, value, next)
  {
    hide At, Quotable, QuotationText, QuotationValue, ParseStringAt;
    if ParseStringAt(c, off) == Literal(value, next) {
      var q := QuotationDerives(c, off);
    }
    if QuotationStands(c, off, value, next) {
      var q :| Quotable(q) && At(c, off, QuotationText(q)) && QuotationValue(q) == value && next == off + |QuotationText(q)|;
      QuotationReads(c, off, q);
    }
  }

  // ----- The literals of RFC 8259 are among them -----

  lemma PieceIsUnbroken(p: Piece)
    requires WellFormed(p)
    ensures Unbroken(PieceText(p))
  {
    hide Code;
    match p
    case Raw(b) => assert [b][1..] == [];
    case Short(x) => assert [BACKSLASH, x][2..] == [];
    case Unit(h) => EscapeIsUnbroken(h);
    case Pair(h, l) =>
      var u: seq<byte> := [BACKSLASH, LOWER_U];
      EscapeIsUnbroken(h);
      EscapeIsUnbroken(l);
      UnbrokenConcat(u + h, u + l);
      assert PieceText(p) == (u + h) + (u + l);
  }

  lemma EscapeIsUnbroken(h: seq<byte>)
    requires IsHex4(h)
    ensures Unbroken([BACKSLASH, LOWER_U] + h)
  {
    assert HexDigit(QUOTE) < 0 && HexDigit(BACKSLASH) < 0;
    hide HexDigit;
    assert ([BACKSLASH, LOWER_U] + h)[2..] == h;
    PlainIsUnbroken(h);
  }

  lemma {:induction false} PlainIsUnbroken(t: seq<byte>)
    requires forall i :: 0 <= i < |t| ==> t[i] != QUOTE && t[i] != BACKSLASH
    ensures Unbroken(t)
  {
    if t != [] {
      PlainIsUnbroken(t[1..]);
    }
  }

  lemma {:induction false} WellFormedReads(ps: seq<Piece>)
    requires AllWellFormed(ps)
    ensures AllReadable(ps) && Unbroken(LiteralText(ps)) && Reads(LiteralText(ps), ps)
  {
    hide WellFormed, PieceText, Unbroken;
    if ps == [] {
      NothingIsUnbroken();
    } else {
      assert WellFormed(ps[0]);
      WellFormedReads(ps[1..]);
      PieceIsUnbroken(ps[0]);
      UnbrokenConcat(PieceText(ps[0]), LiteralText(ps[1..]));
    }
    forall i | 0 <= i < |ps| ensures Readable(ps[i]) { WellFormedIsReadable(ps[i]); }
  }

  lemma NothingIsUnbroken()
    ensures Unbroken([])
  {
  }

  lemma WellFormedIsReadable(p: Piece)
    requires WellFormed(p)
    ensures Readable(p)
  {
  }

  function QuotationOf(ps: seq<Piece>): Quotation {
    Quotation(LiteralText(ps), ps)
  }

  /** Every literal of RFC 8259 is read, up to its closing quote, as the UTF-8 of its code points. */
  lemma LiteralParses(c: seq<byte>, off: nat, ps: seq<Piece>)
    requires AllWellFormed(ps) && At(c, off, [QUOTE] + (LiteralText(ps) + [QUOTE]))
    ensures AllReadable(ps) && Quotable(QuotationOf(ps))
    ensures off < |c| && ParseStringAt(c, off) == Literal(LiteralValue(ps), off + 2 + |LiteralText(ps)|)
  {
    hide At, AllWellFormed, AllReadable, LiteralText, LiteralValue, Unbroken, Reads;
    WellFormedReads(ps);
    QuotationReads(c, off, QuotationOf(ps));
  }

  /** Not every literal that is read is well formed: hexadecimal digits are not insisted on,
      and an escape with a bad one is read as a NUL. */
  lemma BadHexReadsAsNul(c: seq<byte>, p: nat, end: nat)
    requires p + 6 <= end < |c| && c[p] == BACKSLASH && c[p + 1] == LOWER_U
    requires HexDigit(c[p + 2]) < 0 || HexDigit(c[p + 3]) < 0 || HexDigit(c[p + 4]) < 0 || HexDigit(c[p + 5]) < 0
    ensures DecodeEscape(c, p, end) == Good([NUL], 6)
  {
    assert Hex4(c, p + 2) == 0;
  }

  // ----- Printed strings are well-formed literals -----

  /** The piece `print_string_ptr` writes for a byte. */
  function PrintedPiece(b: byte): Piece {
    if b > 31 && b != QUOTE && b != BACKSLASH then Raw(b)
    else if |EscapeByte(b)| == 2 then Short(EscapeByte(b)[1])
    else Unit([ZERO, ZERO, HexChar(b / 16), HexChar(b % 16)])
  }

  lemma PieceIsPrinted(b: byte)
    ensures WellFormed(PrintedPiece(b)) && Readable(PrintedPiece(b)) && PieceText(PrintedPiece(b)) == EscapeByte(b)
    ensures PieceValue(PrintedPiece(b)) == [b]
  {
    assert HexDigit(ZERO) == 0;
  }

  function PrintedPieces(s: seq<byte>): seq<Piece> {
    if s == [] then [] else [PrintedPiece(s[0])] + PrintedPieces(s[1..])
  }

  /** Every printed string is a literal, and stands for the string. */
  lemma {:induction false} PrintedIsLiteral(s: seq<byte>)
    ensures AllWellFormed(PrintedPieces(s)) && AllReadable(PrintedPieces(s)) && LiteralText(PrintedPieces(s)) == EscapeText(s)
    ensures LiteralValue(PrintedPieces(s)) == s
  {
    hide WellFormed, Readable, PieceText, PieceValue, PrintedPiece, EscapeByte;
    if s != [] {
      PieceIsPrinted(s[0]);
      PrintedIsLiteral(s[1..]);
      assert PrintedPieces(s)[1..] == PrintedPieces(s[1..]);
    }
  }

  function PrintedQuotation(s: seq<byte>): Quotation {
    QuotationOf(PrintedPieces(s))
  }

  lemma PrintedIsQuotation(s: seq<byte>)
    ensures Quotable(PrintedQuotation(s)) && QuotationText(PrintedQuotation(s)) == Quoted(s)
    ensures QuotationValue(PrintedQuotation(s)) == s
  {
    hide AllWellFormed, AllReadable, LiteralText, LiteralValue, Unbroken, Reads, EscapeText, PrintedPieces;
    PrintedIsLiteral(s);
    WellFormedReads(PrintedPieces(s));
    assert [QUOTE] + EscapeText(s) + [QUOTE] == [QUOTE] + (EscapeText(s) + [QUOTE]);
  }

  // ----- Utf8 is UTF-8 -----

  predicate IsTail(b: byte) { 0x80 <= b <= 0xBF }

  /** The code point a UTF-8 sequence stands for (the table in section 3 of RFC 3629). */
  function FromUtf8(u: seq<byte>): Option<int> {
    if |u| == 1 && u[0] <= 0x7F then Some(u[0])
    else if |u| == 2 && 0xC2 <= u[0] <= 0xDF && IsTail(u[1]) then
      var a: int, b: int := u[0] - 0xC0, u[1] - 0x80;
      Some(a * 64 + b)
    else if |u| == 3 && 0xE0 <= u[0] <= 0xEF && IsTail(u[1]) && IsTail(u[2]) then
      var a: int, b: int, d: int := u[0] - 0xE0, u[1] - 0x80, u[2] - 0x80;
      Some(a * 4096 + b * 64 + d)
    else if |u| == 4 && 0xF0 <= u[0] <= 0xF4 && IsTail(u[1]) && IsTail(u[2]) && IsTail(u[3]) then
      var a: int, b: int, d: int, e: int := u[0] - 0xF0, u[1] - 0x80, u[2] - 0x80, u[3] - 0x80;
      Some(a * 262144 + b * 4096 + d * 64 + e)
    else None
  }

  lemma SixBitGroups(n: nat)
    ensures n == n / 64 * 64 + n % 64
    ensures n / 64 == n / 4096 * 64 + n / 64 % 64
    ensures n / 4096 == n / 262144 * 64 + n / 4096 % 64
  {
  }

  lemma Utf8ReadsBack(cp: nat)
    requires cp <= 0x10FFFF
    ensures FromUtf8(Utf8(cp)) == Some(cp)
  {
    SixBitGroups(cp);
  }

  /** A surrogate pair stands for each supplementary code point exactly once. */
  lemma PairReadsBack(cp: nat)
    requires 0x10000 <= cp <= 0x10FFFF
    ensures var hi, lo := 0xD800 + (cp - 0x10000) / 0x400, 0xDC00 + (cp - 0x10000) % 0x400;
            IsHighSurrogate(hi) && IsLowSurrogate(lo) && PairCodePoint(hi, lo) == cp
  {
    var k := cp - 0x10000;
    assert (0xD800 + k / 0x400) % 0x400 == k / 0x400;
    assert (0xDC00 + k % 0x400) % 0x400 == k % 0x400;
  }
}
