/**
 JSON texts (RFC 8259) with white space wherever it may stand, and the trees the parser of
 firmware/src/cJSON.c makes of them.
 */
module JsonGrammar {
  import opened Bytes
  import opened JsonValue
  import opened JsonString
  import opened JsonParser
  import Strings = JsonLiteral
  import Numbers = JsonNumber

  // ----- Texts, written out piece by piece -----

  datatype Doc =
    | Word(value: Value)
    | Numeral(number: Numbers.Literal)
    | Quote(quotation: Strings.Quotation)
    | Brackets(blank: seq<byte>, items: seq<Spaced>)
    | Braces(blank: seq<byte>, members: seq<Named>)

  /** An item between white space. */
  datatype Spaced = Spaced(before: seq<byte>, doc: Doc, after: seq<byte>)

  /** A name, a colon and a value, with white space around each. */
  datatype Named = Named(before: seq<byte>, name: Strings.Quotation, colon: seq<byte>, item: Spaced)

  /** White space, and whatever else the parser takes for it: section 2 of RFC 8259 has four of these bytes. */
  predicate Blanks(t: seq<byte>) {
    forall i :: 0 <= i < |t| ==> t[i] <= SPACE
  }

  function WordText(v: Value): seq<byte> {
    match v
    case Null => [110, 117, 108, 108]
    case False => [102, 97, 108, 115, 101]
    case _ => [116, 114, 117, 101]
  }

  /** The whole text of a document. White space inside empty brackets is `blank`. */
  function DocText(d: Doc): seq<byte>
    decreases d, 1
  {
    match d
    case Word(v) => WordText(v)
    case Numeral(n) => Numbers.LiteralText(n)
    case Quote(q) => Strings.QuotationText(q)
    case Brackets(blank, items) => [LEFT_BRACKET] + (ListText(items, blank) + [RIGHT_BRACKET])
    case Braces(blank, members) => [LEFT_BRACE] + (MembersText(members, blank) + [RIGHT_BRACE])
  }

  function SpacedText(s: Spaced): seq<byte>
    decreases s, 2
  {
    s.before + DocText(s.doc) + s.after
  }

  function ListText(items: seq<Spaced>, blank: seq<byte>): seq<byte>
    decreases items, 0
  {
    if items == [] then blank
    else if |items| == 1 then SpacedText(items[0])
    else SpacedText(items[0]) + ([COMMA] + ListText(items[1..], blank))
  }

  function NamedText(m: Named): seq<byte>
    decreases m, 3
  {
    m.before + (Strings.QuotationText(m.name) + (m.colon + ([COLON] + SpacedText(m.item))))
  }

  function MembersText(members: seq<Named>, blank: seq<byte>): seq<byte>
    decreases members, 0
  {
    if members == [] then blank
    else if |members| == 1 then NamedText(members[0])
    else NamedText(members[0]) + ([COMMA] + MembersText(members[1..], blank))
  }

  /** A number begins with a minus sign or a digit; behind that it is what `strtod` reads. */
  predicate Dispatched(n: Numbers.Literal) {
    Numbers.Accepted(n) && (n.negative || n.whole != [])
  }

  /** The text is one of the grammar's, and its numbers have at most 63 bytes. */
  ghost predicate Legal(d: Doc)
    decreases d, 1
  {
    match d
    case Word(v) => v in {Null, False, True}
    case Numeral(n) => Dispatched(n) && |Numbers.LiteralText(n)| <= 63
    case Quote(q) => Strings.Quotable(q)
    case Brackets(blank, items) => Blanks(blank) && LegalItems(items)
    case Braces(blank, members) => Blanks(blank) && LegalMembers(members)
  }

  ghost predicate LegalItem(s: Spaced)
    decreases s, 2
  {
    Blanks(s.before) && Legal(s.doc) && Blanks(s.after)
  }

  ghost predicate LegalItems(items: seq<Spaced>)
    decreases items, 0
  {
    items == [] || (LegalItem(items[0]) && LegalItems(items[1..]))
  }

  ghost predicate LegalMember(m: Named)
    decreases m, 3
  {
    Blanks(m.before) && Strings.Quotable(m.name) && Blanks(m.colon) && LegalItem(m.item)
  }

  ghost predicate LegalMembers(members: seq<Named>)
    decreases members, 0
  {
    members == [] || (LegalMember(members[0]) && LegalMembers(members[1..]))
  }

  // ----- What they stand for -----

  ghost function ValueOf(d: Doc): Value
    requires Legal(d)
    decreases d, 1
  {
    match d
    case Word(v) => v
    case Numeral(n) => Number(Numbers.LiteralValue(n))
    case Quote(q) => String(Strings.QuotationValue(q))
    case Brackets(_, items) => Array(ValuesOf(items))
    case Braces(_, members) => Object(MembersOf(members))
  }

  ghost function ValuesOf(items: seq<Spaced>): seq<Value>
    requires LegalItems(items)
    decreases items, 0
  {
    if items == [] then []
    else
      assert LegalItem(items[0]);
      [ValueOf(items[0].doc)] + ValuesOf(items[1..])
  }

  ghost function MembersOf(members: seq<Named>): seq<Member>
    requires LegalMembers(members)
    decreases members, 0
  {
    if members == [] then []
    else
      assert LegalMember(members[0]) && LegalItem(members[0].item);
      [Member(Strings.QuotationValue(members[0].name), ValueOf(members[0].item.doc))] + MembersOf(members[1..])
  }

  lemma ListCons(s: Spaced, rest: seq<Spaced>, blank: seq<byte>)
    requires LegalItem(s) && LegalItems(rest)
    ensures Legal(s.doc) && LegalItems([s] + rest) && ValuesOf([s] + rest) == [ValueOf(s.doc)] + ValuesOf(rest)
    ensures ListText([s] + rest, blank)
         == if rest == [] then SpacedText(s) else SpacedText(s) + ([COMMA] + ListText(rest, blank))
  {
    hide Legal, ValueOf, SpacedText;
    assert ([s] + rest)[1..] == rest;
  }

  lemma MembersCons(m: Named, rest: seq<Named>, blank: seq<byte>)
    requires LegalMember(m) && LegalMembers(rest)
    ensures LegalItem(m.item) && Legal(m.item.doc) && Strings.Quotable(m.name) && LegalMembers([m] + rest)
    ensures MembersOf([m] + rest) == [Member(Strings.QuotationValue(m.name), ValueOf(m.item.doc))] + MembersOf(rest)
    ensures MembersText([m] + rest, blank)
         == if rest == [] then NamedText(m) else NamedText(m) + ([COMMA] + MembersText(rest, blank))
  {
    hide Legal, ValueOf, NamedText, Strings.QuotationValue;
    assert ([m] + rest)[1..] == rest;
  }

  /** What parsing gives inside `depth` containers: the value, unless it nests too deeply. */
  function Expected(v: Value, next: nat, depth: nat): Parsed {
    if depth + Nesting(v) <= NESTING_LIMIT then Parsed(v, next) else Failed
  }

  function ExpectedItems(items: seq<Value>, acc: seq<Value>, end: nat, depth: nat): Parsed {
    if depth + ItemsNesting(items) <= NESTING_LIMIT then Parsed(Array(acc + items), end) else Failed
  }

  function ExpectedMembers(members: seq<Member>, acc: seq<Member>, end: nat, depth: nat): Parsed {
    if depth + MembersNesting(members) <= NESTING_LIMIT then Parsed(Object(acc + members), end) else Failed
  }

  // ----- White space -----

  lemma SkipsTo(c: seq<byte>, from: nat, t: seq<byte>)
    requires At(c, from, t) && Blanks(t) && from + |t| < |c| && c[from + |t|] > SPACE
    ensures SkipSpace(c, from) == from + |t|
  {
    forall i | from <= i < from + |t| ensures c[i] <= SPACE { AtIndex(c, from, t, i - from); }
  }

  lemma AtThird(c: seq<byte>, off: nat, a: seq<byte>, b: seq<byte>, d: seq<byte>)
    requires At(c, off, a + b + d)
    ensures At(c, off, a) && At(c, off + |a|, b) && At(c, off + |a| + |b|, d) && off + |a| + |b| + |d| <= |c|
  {
    hide At;
    AtConcat(c, off, a + b, d);
    AtConcat(c, off, a, b);
  }

  // ----- Which branch the parser takes -----

  lemma NotAt(c: seq<byte>, off: nat, t: seq<byte>)
    requires off < |c| && t != [] && c[off] != t[0]
    ensures !At(c, off, t)
  {
    assert off + |t| <= |c| ==> c[off..off + |t|][0] == c[off];
  }

  lemma NotNamed(c: seq<byte>, off: nat)
    requires off < |c| && c[off] != NULL_TEXT[0] && c[off] != FALSE_TEXT[0] && c[off] != TRUE_TEXT[0]
    ensures ParseNamedAt(c, off) == Failed
  {
    NotAt(c, off, NULL_TEXT);
    NotAt(c, off, FALSE_TEXT);
    NotAt(c, off, TRUE_TEXT);
  }

  /** Every text begins with a byte that is neither blank nor a closing bracket. */
  lemma DocStart(d: Doc)
    requires Legal(d)
    ensures DocText(d) != [] && DocText(d)[0] > SPACE && DocText(d)[0] !in {RIGHT_BRACKET, BYTE_ORDER_MARK[0]}
  {
    if d.Numeral? {
      NumeralStart(d.number);
    }
  }

  lemma NumeralStart(n: Numbers.Literal)
    requires Dispatched(n)
    ensures Numbers.LiteralText(n) != [] && (Numbers.LiteralText(n)[0] == MINUS || IsDigit(Numbers.LiteralText(n)[0]))
  {
    assert !n.negative ==> IsDigit(n.whole[0]);
  }

  lemma WordParses(c: seq<byte>, off: nat, depth: nat, v: Value)
    requires Terminated(c) && v in {Null, False, True} && At(c, off, WordText(v)) && off + |WordText(v)| < |c|
    ensures ParseValueAt(c, off, depth) == Parsed(v, off + |WordText(v)|)
  {
    hide ParseNumberAt, ParseStringAt, ParseArrayAt, ParseObjectAt;
    AtIndex(c, off, WordText(v), 0);
    if v != Null {
      NotAt(c, off, NULL_TEXT);
    }
    if v == True {
      NotAt(c, off, FALSE_TEXT);
    }
  }

  /** No longer number of at most 63 bytes stands at `off`. */
  ghost predicate NumberEnds(c: seq<byte>, off: nat, k: nat) {
    forall n :: Numbers.Accepted(n) && At(c, off, Numbers.LiteralText(n)) && |Numbers.LiteralText(n)| <= 63 ==>
                  |Numbers.LiteralText(n)| <= k
  }

  lemma EndsAtOther(c: seq<byte>, off: nat, k: nat)
    requires off + k < |c| && !IsNumberByte(c[off + k])
    ensures NumberEnds(c, off, k)
  {
    hide Numbers.LiteralText, Numbers.Accepted;
    forall n | Numbers.Accepted(n) && At(c, off, Numbers.LiteralText(n)) ensures |Numbers.LiteralText(n)| <= k {
      Numbers.LiteralIsNumberBytes(n);
      if |Numbers.LiteralText(n)| > k {
        AtIndex(c, off, Numbers.LiteralText(n), k);
      }
    }
  }

  /** A text of number bytes lies within the run of them. */
  lemma {:induction false} InsideRun(c: seq<byte>, p: nat, t: seq<byte>, limit: nat)
    requires At(c, p, t) && |t| <= limit && forall i :: 0 <= i < |t| ==> IsNumberByte(t[i])
    ensures |t| <= NumberRun(c, p, limit)
    decreases |t|
  {
    if t != [] {
      AtIndex(c, p, t, 0);
      assert t == [t[0]] + t[1..];
      AtConcat(c, p, [t[0]], t[1..]);
      InsideRun(c, p + 1, t[1..], limit - 1);
    }
  }

  /** Literals of at most 63 bytes at a place are those at the start of the run. */
  lemma RunHoldsLiterals(c: seq<byte>, off: nat, n: Numbers.Literal)
    requires off <= |c| && Numbers.Accepted(n)
    ensures var t, run := Numbers.LiteralText(n), c[off..off + NumberRun(c, off, NUMBER_LIMIT)];
            At(c, off, t) && |t| <= NUMBER_LIMIT <==> t <= run
  {
    hide Numbers.LiteralText, Numbers.Accepted, NumberRun;
    var t, k := Numbers.LiteralText(n), NumberRun(c, off, NUMBER_LIMIT);
    if At(c, off, t) && |t| <= NUMBER_LIMIT {
      Numbers.LiteralIsNumberBytes(n);
      InsideRun(c, off, t, NUMBER_LIMIT);
      assert c[off..off + |t|] == c[off..off + k][..|t|];
    }
    if t <= c[off..off + k] {
      assert c[off..off + |t|] == c[off..off + k][..|t|];
    }
  }

  lemma EndsIsLongest(c: seq<byte>, off: nat, k: nat)
    requires off <= |c|
    ensures NumberEnds(c, off, k) <==> Numbers.Longest(c[off..off + NumberRun(c, off, NUMBER_LIMIT)], k)
  {
    hide Numbers.LiteralText, Numbers.Accepted, NumberRun;
    forall n | Numbers.Accepted(n)
      ensures At(c, off, Numbers.LiteralText(n)) && |Numbers.LiteralText(n)| <= NUMBER_LIMIT <==>
              Numbers.LiteralText(n) <= c[off..off + NumberRun(c, off, NUMBER_LIMIT)]
    {
      RunHoldsLiterals(c, off, n);
    }
  }

  /** A number is read when it stands there, and no longer one. */
  lemma NumeralReads(c: seq<byte>, off: nat, n: Numbers.Literal)
    requires off < |c| && c[off] != PLUS && Numbers.Accepted(n) && |Numbers.LiteralText(n)| <= NUMBER_LIMIT
    requires At(c, off, Numbers.LiteralText(n)) && NumberEnds(c, off, |Numbers.LiteralText(n)|)
    ensures ParseNumberAt(c, off) == Parsed(Number(Numbers.LiteralValue(n)), off + |Numbers.LiteralText(n)|)
  {
    hide StrToD, NumberRun, Numbers.LiteralText, Numbers.LiteralValue, Numbers.Accepted, Numbers.Longest, NumberEnds;
    var t, run := Numbers.LiteralText(n), c[off..off + NumberRun(c, off, NUMBER_LIMIT)];
    RunHoldsLiterals(c, off, n);
    EndsIsLongest(c, off, |t|);
    Numbers.LiteralIsNumberBytes(n);
    assert run[..|t|] == t && run[0] == c[off];
    Numbers.LongestIsConverted(run, Numbers.LiteralValue(n), |t|);
  }

  lemma NumeralDerives(c: seq<byte>, off: nat) returns (n: Numbers.Literal)
    requires off < |c| && c[off] != PLUS && ParseNumberAt(c, off).Parsed?
    ensures Numbers.Accepted(n) && |Numbers.LiteralText(n)| <= NUMBER_LIMIT && At(c, off, Numbers.LiteralText(n))
    ensures NumberEnds(c, off, |Numbers.LiteralText(n)|)
    ensures ParseNumberAt(c, off) == Parsed(Number(Numbers.LiteralValue(n)), off + |Numbers.LiteralText(n)|)
  {
    hide StrToD, NumberRun, Numbers.LiteralText, Numbers.LiteralValue, Numbers.Accepted, Numbers.Longest, NumberEnds;
    var run := c[off..off + NumberRun(c, off, NUMBER_LIMIT)];
    EmptyConverts();
    assert run != [];
    assert run[0] == c[off];
    var number, used := StrToD(run).number, StrToD(run).used;
    Numbers.LongestIsConverted(run, number, used);
    n :| Numbers.Accepted(n) && Numbers.LiteralText(n) == run[..used] && Numbers.LiteralValue(n) == number;
    RunHoldsLiterals(c, off, n);
    EndsIsLongest(c, off, used);
  }

  lemma EmptyConverts()
    ensures StrToD([]) == NoConversion
  {
  }

  lemma NumeralParses(c: seq<byte>, off: nat, depth: nat, n: Numbers.Literal)
    requires Terminated(c) && Dispatched(n) && |Numbers.LiteralText(n)| <= NUMBER_LIMIT
    requires At(c, off, Numbers.LiteralText(n)) && off + |Numbers.LiteralText(n)| < |c|
    requires NumberEnds(c, off, |Numbers.LiteralText(n)|)
    ensures ParseValueAt(c, off, depth) == Parsed(Number(Numbers.LiteralValue(n)), off + |Numbers.LiteralText(n)|)
  {
    hide ParseNumberAt, ParseStringAt, ParseArrayAt, ParseObjectAt, Numbers.LiteralText, Numbers.LiteralValue, Numbers.Accepted, NumberEnds;
    NumeralStart(n);
    AtIndex(c, off, Numbers.LiteralText(n), 0);
    NotNamed(c, off);
    NumeralReads(c, off, n);
  }

  lemma QuoteParses(c: seq<byte>, off: nat, depth: nat, q: Strings.Quotation)
    requires Terminated(c) && Strings.Quotable(q) && At(c, off, Strings.QuotationText(q))
    ensures off < |c|
    ensures ParseValueAt(c, off, depth) == Parsed(String(Strings.QuotationValue(q)), off + |Strings.QuotationText(q)|)
  {
    hide ParseNumberAt, ParseStringAt, ParseArrayAt, ParseObjectAt, Strings.QuotationValue;
    AtIndex(c, off, Strings.QuotationText(q), 0);
    NotNamed(c, off);
    Strings.QuotationReads(c, off, q);
  }

  lemma ArrayDispatch(c: seq<byte>, off: nat, depth: nat)
    requires Terminated(c) && off < |c| && c[off] == LEFT_BRACKET
    ensures off + 1 < |c| && ParseValueAt(c, off, depth) == ParseArrayAt(c, off, depth)
    ensures depth >= NESTING_LIMIT ==> ParseArrayAt(c, off, depth) == Failed
    ensures depth < NESTING_LIMIT ==>
              var p := SkipSpace(c, off + 1);
              ParseArrayAt(c, off, depth)
              == if c[p] == RIGHT_BRACKET then Parsed(Array([]), p + 1) else ParseItemsAt(c, p - 1, depth + 1, [])
  {
    hide ParseNumberAt, ParseStringAt, ParseItemsAt, ParseObjectAt, SkipSpace;
    NotNamed(c, off);
  }

  lemma ObjectDispatch(c: seq<byte>, off: nat, depth: nat)
    requires Terminated(c) && off < |c| && c[off] == LEFT_BRACE
    ensures off + 1 < |c| && ParseValueAt(c, off, depth) == ParseObjectAt(c, off, depth)
    ensures depth >= NESTING_LIMIT ==> ParseObjectAt(c, off, depth) == Failed
    ensures depth < NESTING_LIMIT ==>
              var p := SkipSpace(c, off + 1);
              ParseObjectAt(c, off, depth)
              == if c[p] == RIGHT_BRACE then Parsed(Object([]), p + 1) else ParseMembersAt(c, p - 1, depth + 1, [])
  {
    hide ParseNumberAt, ParseStringAt, ParseArrayAt, ParseMembersAt, SkipSpace;
    NotNamed(c, off);
  }

  /** The step back in front of the first item changes nothing. */
  lemma SameItems(c: seq<byte>, a: nat, b: nat, depth: nat)
    requires Terminated(c) && a + 1 < |c| && b + 1 < |c| && SkipSpace(c, a + 1) == SkipSpace(c, b + 1)
    ensures ParseItemsAt(c, a, depth, []) == ParseItemsAt(c, b, depth, [])
    ensures ParseMembersAt(c, a, depth, []) == ParseMembersAt(c, b, depth, [])
  {
    hide ParseNameAt, ParseValueAt, SkipSpace;
  }

  lemma SkipsNothing(c: seq<byte>, p: nat)
    requires p < |c| && c[p] > SPACE
    ensures SkipSpace(c, p) == p
  {
  }

  // ----- Every text parses to its value -----

  /** A text of the grammar at any place, a number where no longer one stands, is read whole and as its value, exactly when
      it does not take the nesting over the limit. */
  lemma {:induction false} DocParses(c: seq<byte>, off: nat, depth: nat, d: Doc)
    requires Terminated(c) && Legal(d) && depth <= NESTING_LIMIT
    requires At(c, off, DocText(d)) && off + |DocText(d)| < |c| && (d.Numeral? ==> NumberEnds(c, off, |DocText(d)|))
    ensures ParseValueAt(c, off, depth) == Expected(ValueOf(d), off + |DocText(d)|, depth)
    decreases d, 1
  {
    hide At, ParseValueAt, LegalItems, LegalMembers, ListText, MembersText, ValuesOf, MembersOf, NumberEnds;
    match d
    case Word(v) => WordParses(c, off, depth, v);
    case Numeral(n) => NumeralParses(c, off, depth, n);
    case Quote(q) => QuoteParses(c, off, depth, q);
    case Brackets(blank, items) => BracketsParse(c, off, depth, blank, items);
    case Braces(blank, members) => BracesParse(c, off, depth, blank, members);
  }

  /** An item and the white space around it, up to a comma or a bracket. */
  lemma {:induction false} SpacedParses(c: seq<byte>, p: nat, depth: nat, s: Spaced, rest: seq<byte>)
    requires Terminated(c) && LegalItem(s) && depth <= NESTING_LIMIT && At(c, p, SpacedText(s) + rest)
    requires rest != [] && rest[0] in {COMMA, RIGHT_BRACKET, RIGHT_BRACE}
    ensures var at, end := p + |s.before|, p + |SpacedText(s)|;
            && p <= at < |c| && SkipSpace(c, p) == at
            && ParseValueAt(c, at, depth) == Expected(ValueOf(s.doc), end - |s.after|, depth)
            && end - |s.after| < |c| && SkipSpace(c, end - |s.after|) == end < |c| && c[end] == rest[0] && At(c, end, rest)
    decreases s, 0
  {
    hide At, ParseValueAt, DocText, SpacedText, Legal, SkipSpace, Blanks, ValueOf, Expected, NumberEnds;
    SpacedStands(c, p, s, rest);
    EndsAtOther(c, p + |s.before|, |DocText(s.doc)|);
    DocParses(c, p + |s.before|, depth, s.doc);
  }

  lemma AtSpaced(c: seq<byte>, p: nat, s: Spaced, rest: seq<byte>)
    requires At(c, p, SpacedText(s) + rest)
    ensures |SpacedText(s)| == |s.before| + |DocText(s.doc)| + |s.after| && p + |SpacedText(s)| + |rest| <= |c|
    ensures At(c, p, s.before) && At(c, p + |s.before|, DocText(s.doc))
    ensures At(c, p + |s.before| + |DocText(s.doc)|, s.after) && At(c, p + |SpacedText(s)|, rest)
  {
    hide At, DocText;
    AtConcat(c, p, SpacedText(s), rest);
    AtThird(c, p, s.before, DocText(s.doc), s.after);
  }

  /** Where an item between white space begins and ends. */
  lemma SpacedStands(c: seq<byte>, p: nat, s: Spaced, rest: seq<byte>)
    requires Terminated(c) && LegalItem(s) && At(c, p, SpacedText(s) + rest)
    requires rest != [] && rest[0] in {COMMA, RIGHT_BRACKET, RIGHT_BRACE}
    ensures var at, end, t := p + |s.before|, p + |SpacedText(s)|, DocText(s.doc);
            && p <= at < |c| && SkipSpace(c, p) == at && At(c, at, t) && end - |s.after| == at + |t| < |c| && !IsNumberByte(c[at + |t|])
            && SkipSpace(c, end - |s.after|) == end < |c| && c[end] == rest[0] && At(c, end, rest)
  {
    hide At, DocText, SpacedText, Legal, SkipSpace, Blanks;
    var t := DocText(s.doc);
    DocStart(s.doc);
    AtSpaced(c, p, s, rest);
    var at, end := p + |s.before|, p + |SpacedText(s)|;
    AtIndex(c, at, t, 0);
    AtIndex(c, end, rest, 0);
    SkipsTo(c, p, s.before);
    SkipsTo(c, at + |t|, s.after);
    NoNumberGoesOn(c, at + |t|, s.after, rest[0]);
  }

  lemma NoNumberGoesOn(c: seq<byte>, p: nat, t: seq<byte>, b: byte)
    requires At(c, p, t) && Blanks(t) && p + |t| < |c| && c[p + |t|] == b && b in {COMMA, RIGHT_BRACKET, RIGHT_BRACE}
    ensures !IsNumberByte(c[p])
  {
    if t != [] {
      AtIndex(c, p, t, 0);
    }
  }

  lemma ParseItemsUnfolds(c: seq<byte>, off: nat, depth: nat, acc: seq<Value>)
    requires Terminated(c) && off + 1 < |c|
    ensures ParseItemsAt(c, off, depth, acc)
         == var r := ParseValueAt(c, SkipSpace(c, off + 1), depth);
            if r.Failed? then Failed
            else
              var next := SkipSpace(c, r.next);
              if c[next] == COMMA then ParseItemsAt(c, next, depth, acc + [r.value])
              else if c[next] == RIGHT_BRACKET then Parsed(Array(acc + [r.value]), next + 1)
              else Failed
  {
    hide ParseValueAt, SkipSpace;
  }

  lemma ListFront(items: seq<Spaced>, blank: seq<byte>)
    requires items != [] && LegalItems(items)
    ensures LegalItem(items[0]) && Legal(items[0].doc) && LegalItems(items[1..])
    ensures ValuesOf(items) == [ValueOf(items[0].doc)] + ValuesOf(items[1..])
    ensures ItemsNesting(ValuesOf(items)) == Max(Nesting(ValueOf(items[0].doc)), ItemsNesting(ValuesOf(items[1..])))
    ensures ListText(items, blank) + [RIGHT_BRACKET] ==
            SpacedText(items[0]) + (if |items| == 1 then [RIGHT_BRACKET] else [COMMA] + (ListText(items[1..], blank) + [RIGHT_BRACKET]))
    ensures |items| == 1 ==> ValuesOf(items[1..]) == []
  {
    hide Nesting, ValueOf, SpacedText, Legal;
    var vs := ValuesOf(items);
    assert vs[0] == ValueOf(items[0].doc) && vs[1..] == ValuesOf(items[1..]);
  }

  /** Items from behind position `off`, which is the opening bracket or a comma. */
  lemma {:induction false} ItemsParse(c: seq<byte>, off: nat, depth: nat, items: seq<Spaced>, blank: seq<byte>, acc: seq<Value>)
    requires Terminated(c) && items != [] && LegalItems(items) && depth <= NESTING_LIMIT
    requires At(c, off + 1, ListText(items, blank) + [RIGHT_BRACKET]) && off + 1 < |c|
    ensures ParseItemsAt(c, off, depth, acc)
         == ExpectedItems(ValuesOf(items), acc, off + 2 + |ListText(items, blank)|, depth)
    decreases items, 0
  {
    hide At, ParseValueAt, ParseItemsAt, SkipSpace, SpacedText, ListText, LegalItems, LegalItem, ValuesOf, Nesting, ItemsNesting;
    ListFront(items, blank);
    var s, v := items[0], ValueOf(items[0].doc);
    var rest := if |items| == 1 then [RIGHT_BRACKET] else [COMMA] + (ListText(items[1..], blank) + [RIGHT_BRACKET]);
    SpacedParses(c, off + 1, depth, s, rest);
    var end := off + 1 + |SpacedText(s)|;
    ParseItemsUnfolds(c, off, depth, acc);
    ItemsNestingNone();
    if |items| == 1 {
      assert acc + [v] == acc + ValuesOf(items);
    } else {
      AtConcat(c, end, [COMMA], ListText(items[1..], blank) + [RIGHT_BRACKET]);
      ItemsParse(c, end, depth, items[1..], blank, acc + [v]);
      assert acc + [v] + ValuesOf(items[1..]) == acc + ValuesOf(items);
    }
  }

  lemma ItemsNestingNone()
    ensures ItemsNesting([]) == 0 && MembersNesting([]) == 0
  {
  }

  /** Where the first item's text begins, which is no closing bracket. */
  lemma ListStart(c: seq<byte>, p: nat, items: seq<Spaced>, blank: seq<byte>)
    requires LegalItems(items) && Blanks(blank) && At(c, p, ListText(items, blank) + [RIGHT_BRACKET])
    ensures p < |c| && SkipSpace(c, p) < |c| && c[SkipSpace(c, p)] > SPACE
    ensures c[SkipSpace(c, p)] == RIGHT_BRACKET <==> items == []
    ensures items == [] ==> SkipSpace(c, p) == p + |blank| && ValuesOf(items) == []
  {
    hide At, DocText, SkipSpace, Blanks, Legal;
    if items == [] {
      AtConcat(c, p, blank, [RIGHT_BRACKET]);
      AtIndex(c, p + |blank|, [RIGHT_BRACKET], 0);
      SkipsTo(c, p, blank);
    } else {
      ListFront(items, blank);
      ItemStart(c, p, items[0], if |items| == 1 then [RIGHT_BRACKET] else [COMMA] + (ListText(items[1..], blank) + [RIGHT_BRACKET]));
    }
  }

  lemma ItemStart(c: seq<byte>, p: nat, s: Spaced, rest: seq<byte>)
    requires LegalItem(s) && At(c, p, SpacedText(s) + rest)
    ensures p < |c| && SkipSpace(c, p) < |c| && c[SkipSpace(c, p)] > SPACE && c[SkipSpace(c, p)] != RIGHT_BRACKET
  {
    hide At, DocText, SkipSpace, Blanks, Legal;
    DocStart(s.doc);
    AtConcat(c, p, SpacedText(s), rest);
    AtThird(c, p, s.before, DocText(s.doc), s.after);
    AtIndex(c, p + |s.before|, DocText(s.doc), 0);
    SkipsTo(c, p, s.before);
  }

  lemma {:induction false} BracketsParse(c: seq<byte>, off: nat, depth: nat, blank: seq<byte>, items: seq<Spaced>)
    requires Terminated(c) && Blanks(blank) && LegalItems(items) && depth <= NESTING_LIMIT
    requires At(c, off, [LEFT_BRACKET] + (ListText(items, blank) + [RIGHT_BRACKET]))
    requires off + 2 + |ListText(items, blank)| < |c|
    ensures ParseValueAt(c, off, depth) == Expected(Array(ValuesOf(items)), off + 2 + |ListText(items, blank)|, depth)
    decreases items, 1
  {
    hide At, ParseValueAt, ParseItemsAt, ParseArrayAt, SkipSpace, ListText, LegalItems, ValuesOf, ItemsNesting, Blanks;
    AtConcat(c, off, [LEFT_BRACKET], ListText(items, blank) + [RIGHT_BRACKET]);
    AtIndex(c, off, [LEFT_BRACKET], 0);
    ArrayDispatch(c, off, depth);
    ListStart(c, off + 1, items, blank);
    var p := SkipSpace(c, off + 1);
    ItemsNestingNone();
    if items == [] {
      EmptyText(blank);
    } else if depth < NESTING_LIMIT {
      SkipsNothing(c, p);
      SameItems(c, off, p - 1, depth + 1);
      ItemsParse(c, off, depth + 1, items, blank, []);
      assert [] + ValuesOf(items) == ValuesOf(items);
    }
  }

  lemma EmptyText(blank: seq<byte>)
    ensures ListText([], blank) == blank && MembersText([], blank) == blank
  {
  }

  // ----- Objects -----

  /** The parts of a member, one behind the other. */
  ghost predicate MemberStands(c: seq<byte>, p: nat, m: Named, rest: seq<byte>) {
    var at := p + |m.before|;
    var colon := at + |Strings.QuotationText(m.name)| + |m.colon|;
    && At(c, p, m.before) && At(c, at, Strings.QuotationText(m.name)) && At(c, at + |Strings.QuotationText(m.name)|, m.colon)
    && colon < |c| && c[colon] == COLON && At(c, colon + 1, SpacedText(m.item) + rest)
  }

  lemma MemberParts(c: seq<byte>, p: nat, m: Named, rest: seq<byte>)
    requires At(c, p, NamedText(m) + rest)
    ensures MemberStands(c, p, m, rest)
    ensures |NamedText(m)| == |m.before| + |Strings.QuotationText(m.name)| + |m.colon| + 1 + |SpacedText(m.item)|
  {
    hide At, SpacedText, Strings.QuotationText;
    var quote, tail := Strings.QuotationText(m.name), SpacedText(m.item) + rest;
    Regrouped(m.before, quote, m.colon, [COLON], SpacedText(m.item), rest);
    AtConcat(c, p, m.before, quote + (m.colon + ([COLON] + tail)));
    var at := p + |m.before|;
    AtConcat(c, at, quote, m.colon + ([COLON] + tail));
    AtConcat(c, at + |quote|, m.colon, [COLON] + tail);
    AtConcat(c, at + |quote| + |m.colon|, [COLON], tail);
    AtIndex(c, at + |quote| + |m.colon|, [COLON], 0);
  }

  lemma Regrouped(a: seq<byte>, b: seq<byte>, x: seq<byte>, y: seq<byte>, z: seq<byte>, rest: seq<byte>)
    ensures a + (b + (x + (y + z))) + rest == a + (b + (x + (y + (z + rest))))
  {
  }

  /** The name of a member and its colon. */
  lemma NameParses(c: seq<byte>, p: nat, m: Named, rest: seq<byte>)
    requires Terminated(c) && LegalMember(m) && MemberStands(c, p, m, rest)
    ensures var at := p + |m.before|;
            var colon := at + |Strings.QuotationText(m.name)| + |m.colon|;
            && p <= at < |c| && SkipSpace(c, p) == at && c[at] == QUOTE
            && ParseNameAt(c, at) == Literal(Strings.QuotationValue(m.name), colon)
  {
    hide At, SkipSpace, SpacedText, LegalItem, Strings.QuotationValue, Strings.Quotable, ParseStringAt, Blanks;
    var quote, at := Strings.QuotationText(m.name), p + |m.before|;
    AtIndex(c, at, quote, 0);
    SkipsTo(c, p, m.before);
    SkipsTo(c, at + |quote|, m.colon);
    Strings.QuotationReads(c, at, m.name);
  }

  /** A member, up to a comma or a brace. */
  lemma {:induction false} MemberParses(c: seq<byte>, off: nat, depth: nat, m: Named, rest: seq<byte>)
    requires Terminated(c) && LegalMember(m) && depth <= NESTING_LIMIT && At(c, off + 1, NamedText(m) + rest) && off + 1 < |c|
    requires rest != [] && rest[0] in {COMMA, RIGHT_BRACE}
    ensures Legal(m.item.doc) && Strings.Quotable(m.name)
    ensures var end, v := off + 1 + |NamedText(m)|, ValueOf(m.item.doc);
            && ParseMemberAt(c, off, depth)
               == (if depth + Nesting(v) <= NESTING_LIMIT then NamedValue(Member(Strings.QuotationValue(m.name), v), end) else NoMember)
            && end < |c| && c[end] == rest[0] && At(c, end, rest)
    decreases m, 0
  {
    hide At, SkipSpace, SpacedText, NamedText, ParseValueAt, ParseNameAt, LegalItem, Legal, ValueOf, Nesting, Strings.QuotationText, Blanks,
      Strings.QuotationValue, Strings.Quotable;
    MemberParts(c, off + 1, m, rest);
    NameParses(c, off + 1, m, rest);
    LegalInside(m.item);
    var colon := ParseNameAt(c, SkipSpace(c, off + 1)).next;
    SpacedParses(c, colon + 1, depth, m.item, rest);
  }

  lemma LegalInside(s: Spaced)
    requires LegalItem(s)
    ensures Legal(s.doc)
  {
  }

  lemma ParseMembersUnfolds(c: seq<byte>, off: nat, depth: nat, acc: seq<Member>)
    requires Terminated(c) && off + 1 < |c|
    ensures ParseMembersAt(c, off, depth, acc)
         == var r := ParseMemberAt(c, off, depth);
            if r.NoMember? then Failed
            else if c[r.next] == COMMA then ParseMembersAt(c, r.next, depth, acc + [r.member])
            else if c[r.next] == RIGHT_BRACE then Parsed(Object(acc + [r.member]), r.next + 1)
            else Failed
  {
    hide ParseMemberAt;
  }

  function AfterMember(members: seq<Named>, blank: seq<byte>): seq<byte>
    requires members != []
  {
    if |members| == 1 then [RIGHT_BRACE] else [COMMA] + (MembersText(members[1..], blank) + [RIGHT_BRACE])
  }

  lemma MembersFront(members: seq<Named>, blank: seq<byte>)
    requires members != [] && LegalMembers(members)
    ensures LegalMember(members[0]) && LegalItem(members[0].item) && Legal(members[0].item.doc) && LegalMembers(members[1..])
    ensures Strings.Quotable(members[0].name)
    ensures var m := Member(Strings.QuotationValue(members[0].name), ValueOf(members[0].item.doc));
            && MembersOf(members) == [m] + MembersOf(members[1..])
            && MembersNesting(MembersOf(members)) == Max(Nesting(m.value), MembersNesting(MembersOf(members[1..])))
    ensures MembersText(members, blank) + [RIGHT_BRACE] == NamedText(members[0]) + AfterMember(members, blank)
    ensures |MembersOf(members)| == 1 <==> |members| == 1
    ensures MembersOf(members)[0] == Member(Strings.QuotationValue(members[0].name), ValueOf(members[0].item.doc))
    ensures MembersOf(members)[1..] == MembersOf(members[1..])
  {
    hide Nesting, ValueOf, NamedText, Legal, Strings.QuotationValue, Strings.Quotable;
    LegalInside(members[0].item);
    var ms := MembersOf(members);
    assert ms[0] == Member(Strings.QuotationValue(members[0].name), ValueOf(members[0].item.doc));
    assert ms[1..] == MembersOf(members[1..]);
  }

  /** The first member and where it ends: at the closing brace, or at the comma behind which the others stand. */
  lemma {:induction false} FirstMember(c: seq<byte>, off: nat, depth: nat, members: seq<Named>, blank: seq<byte>)
    requires Terminated(c) && members != [] && LegalMembers(members) && depth <= NESTING_LIMIT
    requires At(c, off + 1, MembersText(members, blank) + [RIGHT_BRACE]) && off + 1 < |c|
    ensures LegalMembers(members[1..]) && MembersOf(members) != [] && MembersOf(members)[1..] == MembersOf(members[1..])
    ensures |MembersOf(members)| == 1 <==> |members| == 1
    ensures var m, end := MembersOf(members)[0], off + 1 + |NamedText(members[0])|;
            && ParseMemberAt(c, off, depth) == (if depth + Nesting(m.value) <= NESTING_LIMIT then NamedValue(m, end) else NoMember)
            && end < |c|
            && (|members| == 1 ==> c[end] == RIGHT_BRACE && |MembersText(members, blank)| == |NamedText(members[0])|)
            && (|members| > 1 ==>
                  && c[end] == COMMA && end + 1 < |c| && At(c, end + 1, MembersText(members[1..], blank) + [RIGHT_BRACE])
                  && |MembersText(members, blank)| == |NamedText(members[0])| + 1 + |MembersText(members[1..], blank)|)
    decreases members, 0
  {
    hide At, ParseMemberAt, NamedText, MembersText, LegalMembers, LegalMember, LegalItem, Legal, MembersOf, ValueOf,
      Nesting, MembersNesting, Strings.QuotationValue, Strings.Quotable;
    MembersFront(members, blank);
    var rest, end := AfterMember(members, blank), off + 1 + |NamedText(members[0])|;
    assert |MembersText(members, blank)| + 1 == |NamedText(members[0])| + |rest|;
    MemberParses(c, off, depth, members[0], rest);
    if |members| > 1 {
      AtConcat(c, end, [COMMA], MembersText(members[1..], blank) + [RIGHT_BRACE]);
    }
  }

  /** Members from behind position `off`, which is the opening brace or a comma. */
  lemma {:induction false} MembersParse(c: seq<byte>, off: nat, depth: nat, members: seq<Named>, blank: seq<byte>, acc: seq<Member>)
    requires Terminated(c) && members != [] && LegalMembers(members) && depth <= NESTING_LIMIT
    requires At(c, off + 1, MembersText(members, blank) + [RIGHT_BRACE]) && off + 1 < |c|
    ensures ParseMembersAt(c, off, depth, acc)
         == ExpectedMembers(MembersOf(members), acc, off + 2 + |MembersText(members, blank)|, depth)
    decreases members, 1
  {
    hide At, ParseMemberAt, ParseMembersAt, NamedText, MembersText, LegalMembers, MembersOf, Nesting, ExpectedMembers;
    FirstMember(c, off, depth, members, blank);
    var end := off + 1 + |NamedText(members[0])|;
    if |members| > 1 {
      MembersParse(c, end, depth, members[1..], blank, acc + [MembersOf(members)[0]]);
    }
    MembersStep(c, off, depth, MembersOf(members), acc, end, off + 2 + |MembersText(members, blank)|);
  }

  /** One member and the rest. */
  lemma MembersStep(c: seq<byte>, off: nat, depth: nat, members: seq<Member>, acc: seq<Member>, next: nat, end: nat)
    requires Terminated(c) && members != [] && off + 1 < |c| && next < |c|
    requires var m := members[0];
             ParseMemberAt(c, off, depth)
             == if depth + Nesting(m.value) <= NESTING_LIMIT then NamedValue(m, next) else NoMember
    requires if |members| == 1 then c[next] == RIGHT_BRACE && end == next + 1
             else c[next] == COMMA && next + 1 < |c|
                  && ParseMembersAt(c, next, depth, acc + [members[0]])
                     == ExpectedMembers(members[1..], acc + [members[0]], end, depth)
    ensures ParseMembersAt(c, off, depth, acc) == ExpectedMembers(members, acc, end, depth)
  {
    hide Nesting, ParseMemberAt, ParseMembersAt, MembersNesting;
    NestingFront(members);
    ParseMembersUnfolds(c, off, depth, acc);
    assert acc + [members[0]] + members[1..] == acc + members;
    if |members| == 1 {
      assert members[1..] == [] && acc + [members[0]] == acc + members;
    } else if depth + Nesting(members[0].value) <= NESTING_LIMIT {
      assert ParseMembersAt(c, off, depth, acc) == ParseMembersAt(c, next, depth, acc + [members[0]]);
    }
  }

  lemma NestingFront(members: seq<Member>)
    requires members != []
    ensures MembersNesting(members) == Max(Nesting(members[0].value), MembersNesting(members[1..]))
    ensures MembersNesting([]) == 0
  {
    hide Nesting;
  }

  /** Where the first member's text begins, which is no closing brace. */
  lemma MembersStart(c: seq<byte>, p: nat, members: seq<Named>, blank: seq<byte>)
    requires Terminated(c) && LegalMembers(members) && Blanks(blank) && At(c, p, MembersText(members, blank) + [RIGHT_BRACE])
    ensures p < |c| && SkipSpace(c, p) < |c| && c[SkipSpace(c, p)] > SPACE
    ensures c[SkipSpace(c, p)] == RIGHT_BRACE <==> members == []
    ensures members == [] ==> SkipSpace(c, p) == p + |blank| && MembersOf(members) == []
  {
    hide At, NamedText, SkipSpace, Blanks, Legal, LegalMember, LegalItem, ParseNameAt, MembersText, MembersOf, Nesting, MembersNesting,
      Strings.QuotationValue, Strings.Quotable, Strings.QuotationText;
    if members == [] {
      EmptyText(blank);
      NoMembers();
      AtConcat(c, p, blank, [RIGHT_BRACE]);
      AtIndex(c, p + |blank|, [RIGHT_BRACE], 0);
      SkipsTo(c, p, blank);
    } else {
      MembersFront(members, blank);
      MemberStart(c, p, members[0], AfterMember(members, blank));
    }
  }

  lemma MemberStart(c: seq<byte>, p: nat, m: Named, rest: seq<byte>)
    requires Terminated(c) && LegalMember(m) && At(c, p, NamedText(m) + rest)
    ensures p < |c| && SkipSpace(c, p) < |c| && c[SkipSpace(c, p)] == QUOTE
  {
    hide At, NamedText, SkipSpace, LegalMember, ParseNameAt, Strings.QuotationText;
    MemberParts(c, p, m, rest);
    NameParses(c, p, m, rest);
  }

  lemma NoMembers()
    ensures MembersOf([]) == []
  {
  }

  lemma {:induction false} BracesParse(c: seq<byte>, off: nat, depth: nat, blank: seq<byte>, members: seq<Named>)
    requires Terminated(c) && Blanks(blank) && LegalMembers(members) && depth <= NESTING_LIMIT
    requires At(c, off, [LEFT_BRACE] + (MembersText(members, blank) + [RIGHT_BRACE]))
    requires off + 2 + |MembersText(members, blank)| < |c|
    ensures ParseValueAt(c, off, depth) == Expected(Object(MembersOf(members)), off + 2 + |MembersText(members, blank)|, depth)
    decreases members, 2
  {
    hide At, ParseValueAt, ParseMembersAt, ParseObjectAt, SkipSpace, MembersText, LegalMembers, MembersOf, MembersNesting, Blanks;
    AtConcat(c, off, [LEFT_BRACE], MembersText(members, blank) + [RIGHT_BRACE]);
    AtIndex(c, off, [LEFT_BRACE], 0);
    ObjectDispatch(c, off, depth);
    MembersStart(c, off + 1, members, blank);
    var p := SkipSpace(c, off + 1);
    ItemsNestingNone();
    if members == [] {
      EmptyText(blank);
    } else if depth < NESTING_LIMIT {
      SkipsNothing(c, p);
      SameItems(c, off, p - 1, depth + 1);
      MembersParse(c, off, depth + 1, members, blank, []);
      assert [] + MembersOf(members) == MembersOf(members);
    }
  }

  // ----- A whole text -----

  /** Every JSON text, with any white space around its tokens and itself, parses to its value exactly when it nests no deeper than
      the limit, and is refused otherwise; the demand that nothing follows it is met. */
  lemma TextParses(s: Spaced, requireEnd: bool)
    requires LegalItem(s) && NulFree(SpacedText(s))
    ensures ParseText(SpacedText(s), requireEnd) == if Nesting(ValueOf(s.doc)) <= NESTING_LIMIT then Some(ValueOf(s.doc)) else None
  {
    hide At, DocText, Legal, ParseValueAt, SkipSpace, ValueOf, Nesting, Blanks, CString, NulFree;
    var text, t := SpacedText(s), DocText(s.doc);
    CStringWhole(text);
    var c := text + [NUL];
    assert c[..|text|] == text;
    assert At(c, 0, text) && At(c, 0, s.before + t + s.after) by { WholeStands(text); }
    DocStart(s.doc);
    AtThird(c, 0, s.before, t, s.after);
    AtIndex(c, |s.before|, t, 0);
    SkipsTo(c, 0, s.before);
    NoMark(c, s.before, t);
    EndIsBlank(c, |s.before| + |t|, s.after);
    EndsAtOther(c, |s.before|, |t|);
    DocParses(c, |s.before|, 0, s.doc);
  }

  lemma WholeStands(text: seq<byte>)
    ensures At(text + [NUL], 0, text)
  {
    assert (text + [NUL])[0..|text|] == text;
  }

  lemma NoMark(c: seq<byte>, before: seq<byte>, t: seq<byte>)
    requires At(c, 0, before) && At(c, |before|, t) && Blanks(before) && t != [] && t[0] != BYTE_ORDER_MARK[0]
    ensures !At(c, 0, BYTE_ORDER_MARK)
  {
    if before == [] {
      AtIndex(c, 0, t, 0);
    } else {
      AtIndex(c, 0, before, 0);
    }
    NotAt(c, 0, BYTE_ORDER_MARK);
  }

  lemma EndIsBlank(c: seq<byte>, p: nat, after: seq<byte>)
    requires Terminated(c) && At(c, p, after) && Blanks(after) && p + |after| == |c| - 1
    ensures SkipSpace(c, p) == |c| - 1 && !IsNumberByte(c[p])
  {
    forall i | p <= i < p + |after| ensures c[i] <= SPACE { AtIndex(c, p, after, i - p); }
  }
}
