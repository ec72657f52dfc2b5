/**
 The texts firmware/src/cJSON.c accepts are exactly those of the grammar: from what the parser has read,
 the text it has read is taken apart.
 */
module JsonDerivation {
  import opened Bytes
  import opened JsonValue
  import opened JsonString
  import opened JsonParser
  import opened JsonGrammar
  import Strings = JsonLiteral
  import Numbers = JsonNumber

  lemma AtJoin(c: seq<byte>, off: nat, a: seq<byte>, b: seq<byte>)
    requires At(c, off, a) && At(c, off + |a|, b)
    ensures At(c, off, a + b)
  {
    assert c[off..off + |a + b|] == c[off..off + |a|] + c[off + |a|..off + |a| + |b|];
  }

  lemma AtOne(c: seq<byte>, off: nat)
    requires off < |c|
    ensures At(c, off, [c[off]])
  {
  }

  /** The white space that is passed over. */
  lemma BlanksPassed(c: seq<byte>, off: nat) returns (blank: seq<byte>)
    requires off < |c|
    ensures Blanks(blank) && At(c, off, blank) && off + |blank| == SkipSpace(c, off)
  {
    hide SkipSpace;
    var end := SkipSpace(c, off);
    blank := c[off..end];
  }

  /** What has been read: a text of the grammar, its value, and where it ends. */
  ghost predicate Read(c: seq<byte>, off: nat, depth: nat, d: Doc, r: Parsed) {
    && Legal(d) && At(c, off, DocText(d)) && r == Parsed(ValueOf(d), off + |DocText(d)|)
    && depth + Nesting(ValueOf(d)) <= NESTING_LIMIT
    && (d.Numeral? ==> NumberEnds(c, off, |DocText(d)|))
  }

  lemma WordDerives(c: seq<byte>, off: nat, depth: nat) returns (d: Doc)
    requires Terminated(c) && off < |c| && depth <= NESTING_LIMIT && ParseNamedAt(c, off).Parsed?
    ensures Read(c, off, depth, d, ParseNamedAt(c, off))
  {
    d := Word(ParseNamedAt(c, off).value);
  }

  lemma NumberDerives(c: seq<byte>, off: nat, depth: nat) returns (d: Doc)
    requires Terminated(c) && off < |c| && depth <= NESTING_LIMIT
    requires (c[off] == MINUS || IsDigit(c[off])) && ParseNumberAt(c, off).Parsed?
    ensures Read(c, off, depth, d, ParseNumberAt(c, off))
  {
    hide ParseNumberAt, NumberEnds, Numbers.LiteralValue, Numbers.LiteralText, Numbers.Accepted, At;
    var n := NumeralDerives(c, off);
    Numbers.LiteralIsNumberBytes(n);
    AtIndex(c, off, Numbers.LiteralText(n), 0);
    FirstIsDigit(n);
    d := Numeral(n);
  }

  lemma FirstIsDigit(n: Numbers.Literal)
    requires Numbers.Accepted(n) && Numbers.LiteralText(n) != [] && Numbers.LiteralText(n)[0] != DOT
    ensures Dispatched(n)
  {
  }

  lemma StringDerives(c: seq<byte>, off: nat, depth: nat) returns (d: Doc)
    requires Terminated(c) && off < |c| && depth <= NESTING_LIMIT && ParseQuotedAt(c, off).Parsed?
    ensures Read(c, off, depth, d, ParseQuotedAt(c, off))
  {
    hide ParseStringAt, Strings.Quotable, Strings.QuotationText, Strings.QuotationValue, At;
    var q := Strings.QuotationDerives(c, off);
    d := Quote(q);
  }

  lemma ValueCases(c: seq<byte>, off: nat, depth: nat)
    requires Terminated(c) && off < |c| && ParseValueAt(c, off, depth).Parsed?
    ensures var r := ParseValueAt(c, off, depth);
            || (ParseNamedAt(c, off).Parsed? && r == ParseNamedAt(c, off))
            || (c[off] == QUOTE && r == ParseQuotedAt(c, off))
            || ((c[off] == MINUS || IsDigit(c[off])) && r == ParseNumberAt(c, off))
            || (c[off] == LEFT_BRACKET && r == ParseArrayAt(c, off, depth))
            || (c[off] == LEFT_BRACE && r == ParseObjectAt(c, off, depth))
  {
    hide ParseNamedAt, ParseNumberAt, ParseQuotedAt, ParseArrayAt, ParseObjectAt;
  }

  /** Whatever is read is a text of the grammar. */
  lemma {:induction false} DocDerives(c: seq<byte>, off: nat, depth: nat) returns (d: Doc)
    requires Terminated(c) && off < |c| && depth <= NESTING_LIMIT && ParseValueAt(c, off, depth).Parsed?
    ensures Read(c, off, depth, d, ParseValueAt(c, off, depth))
    decreases |c| - off, 3
  {
    hide ParseNamedAt, ParseNumberAt, ParseQuotedAt, ParseArrayAt, ParseObjectAt, ParseValueAt, Read;
    ValueCases(c, off, depth);
    var r := ParseValueAt(c, off, depth);
    if ParseNamedAt(c, off).Parsed? && r == ParseNamedAt(c, off) {
      d := WordDerives(c, off, depth);
    } else if c[off] == QUOTE && r == ParseQuotedAt(c, off) {
      d := StringDerives(c, off, depth);
    } else if (c[off] == MINUS || IsDigit(c[off])) && r == ParseNumberAt(c, off) {
      d := NumberDerives(c, off, depth);
    } else if c[off] == LEFT_BRACKET && r == ParseArrayAt(c, off, depth) {
      d := BracketsDerive(c, off, depth);
    } else {
      d := BracesDerive(c, off, depth);
    }
  }

  /** An item between white space, up to the byte that follows it. */
  lemma {:induction false} SpacedDerives(c: seq<byte>, p: nat, depth: nat) returns (s: Spaced)
    requires Terminated(c) && p < |c| && depth <= NESTING_LIMIT && ParseValueAt(c, SkipSpace(c, p), depth).Parsed?
    ensures LegalItem(s) && At(c, p, SpacedText(s))
    ensures ParseValueAt(c, SkipSpace(c, p), depth).value == ValueOf(s.doc) && depth + Nesting(ValueOf(s.doc)) <= NESTING_LIMIT
    ensures p + |SpacedText(s)| == SkipSpace(c, ParseValueAt(c, SkipSpace(c, p), depth).next)
    decreases |c| - p, 4
  {
    hide SkipSpace, ParseValueAt, At, Blanks, Legal, DocText, ValueOf, NumberEnds, Nesting;
    var at := SkipSpace(c, p);
    var before := BlanksPassed(c, p);
    var d := DocDerives(c, at, depth);
    var after := BlanksPassed(c, at + |DocText(d)|);
    s := Spaced(before, d, after);
    AtJoin(c, p, before, DocText(d));
    AtJoin(c, p, before + DocText(d), after);
  }

  lemma ArrayCases(c: seq<byte>, off: nat, depth: nat)
    requires Terminated(c) && off < |c| && c[off] == LEFT_BRACKET && ParseArrayAt(c, off, depth).Parsed?
    ensures var p := SkipSpace(c, off + 1);
            && depth < NESTING_LIMIT
            && ParseArrayAt(c, off, depth)
               == if c[p] == RIGHT_BRACKET then Parsed(Array([]), p + 1) else ParseItemsAt(c, off, depth + 1, [])
  {
    hide ParseItemsAt, SkipSpace;
    var p := SkipSpace(c, off + 1);
    if c[p] != RIGHT_BRACKET {
      SkipAgain(c, off + 1);
      SameItems(c, p - 1, off, depth + 1);
    }
  }

  /** Brackets around nothing but white space. */
  lemma EmptyDerives(c: seq<byte>, off: nat, open: byte, close: byte) returns (blank: seq<byte>)
    requires off + 1 < |c| && c[off] == open && c[SkipSpace(c, off + 1)] == close
    ensures Blanks(blank) && At(c, off, [open] + (blank + [close])) && SkipSpace(c, off + 1) == off + 1 + |blank|
  {
    hide SkipSpace, At, Blanks;
    blank := BlanksPassed(c, off + 1);
    AtOne(c, off);
    AtOne(c, off + 1 + |blank|);
    AtJoin(c, off + 1, blank, [close]);
    AtJoin(c, off, [open], blank + [close]);
  }

  lemma {:induction false} BracketsDerive(c: seq<byte>, off: nat, depth: nat) returns (d: Doc)
    requires Terminated(c) && off < |c| && depth <= NESTING_LIMIT && c[off] == LEFT_BRACKET && ParseArrayAt(c, off, depth).Parsed?
    ensures Read(c, off, depth, d, ParseArrayAt(c, off, depth))
    decreases |c| - off, 2
  {
    hide ParseArrayAt, ParseItemsAt, SkipSpace, At, Blanks, LegalItems, ValuesOf, ListText, NumberEnds, Nesting, ItemsNesting;
    ArrayCases(c, off, depth);
    if c[SkipSpace(c, off + 1)] == RIGHT_BRACKET {
      var blank := EmptyDerives(c, off, LEFT_BRACKET, RIGHT_BRACKET);
      d := Brackets(blank, []);
      EmptyBrackets(blank);
    } else {
      var items := ItemsDerive(c, off, depth + 1, []);
      d := Brackets([], items);
      AtOne(c, off);
      AtJoin(c, off, [LEFT_BRACKET], ListText(items, []) + [RIGHT_BRACKET]);
      NothingIsBlank();
      assert [] + ValuesOf(items) == ValuesOf(items);
      ArrayNesting(ValuesOf(items));
    }
  }

  lemma NothingIsBlank()
    ensures Blanks([])
  {
  }

  lemma SkipAgain(c: seq<byte>, off: nat)
    requires off < |c|
    ensures SkipSpace(c, SkipSpace(c, off)) == SkipSpace(c, off)
  {
  }

  lemma EmptyBrackets(blank: seq<byte>)
    ensures LegalItems([]) && ValuesOf([]) == [] && ListText([], blank) == blank && Nesting(Array([])) == 1
    ensures LegalMembers([]) && MembersOf([]) == [] && JsonGrammar.MembersText([], blank) == blank && Nesting(Object([])) == 1
  {
  }

  lemma ArrayNesting(items: seq<Value>)
    ensures Nesting(Array(items)) == 1 + ItemsNesting(items)
  {
  }

  lemma ObjectNesting(members: seq<Member>)
    ensures Nesting(Object(members)) == 1 + MembersNesting(members)
  {
  }

  /** A text, a comma, and the rest of a list. */
  lemma AtListed(c: seq<byte>, p: nat, t: seq<byte>, rest: seq<byte>, close: byte)
    requires At(c, p, t) && p + |t| < |c| && c[p + |t|] == COMMA && At(c, p + |t| + 1, rest + [close])
    ensures At(c, p, (t + ([COMMA] + rest)) + [close])
  {
    hide At;
    AtOne(c, p + |t|);
    AtJoin(c, p + |t|, [COMMA], rest + [close]);
    AtJoin(c, p, t, [COMMA] + (rest + [close]));
    assert t + ([COMMA] + (rest + [close])) == (t + ([COMMA] + rest)) + [close];
  }

  lemma Regrouped<T>(acc: seq<T>, v: T, rest: seq<T>)
    ensures acc + [v] + rest == acc + ([v] + rest)
  {
  }

  /** Items from behind position `off` to the closing bracket. */
  lemma {:induction false} ItemsDerive(c: seq<byte>, off: nat, depth: nat, acc: seq<Value>) returns (items: seq<Spaced>)
    requires Terminated(c) && off + 1 < |c| && depth <= NESTING_LIMIT && ParseItemsAt(c, off, depth, acc).Parsed?
    ensures items != [] && LegalItems(items) && At(c, off + 1, ListText(items, []) + [RIGHT_BRACKET])
    ensures ParseItemsAt(c, off, depth, acc) == Parsed(Array(acc + ValuesOf(items)), off + 2 + |ListText(items, [])|)
    ensures depth + ItemsNesting(ValuesOf(items)) <= NESTING_LIMIT
    decreases |c| - off, 1
  {
    hide ParseItemsAt, ParseValueAt, SkipSpace, At, LegalItem, LegalItems, Legal, ValuesOf, ValueOf, ListText, SpacedText,
      NumberEnds, Nesting, ItemsNesting;
    ParseItemsUnfolds(c, off, depth, acc);
    var s := SpacedDerives(c, off + 1, depth);
    var v, next := ItemValue(s), off + 1 + |SpacedText(s)|;
    AtOne(c, next);
    if c[next] == COMMA {
      var later := ItemsDerive(c, next, depth, acc + [v]);
      items := [s] + later;
      ItemsJoin(s, later);
      AtListed(c, off + 1, SpacedText(s), ListText(later, []), RIGHT_BRACKET);
      Regrouped(acc, v, ValuesOf(later));
    } else {
      items := [s];
      ItemsJoin(s, []);
      assert [s] + [] == [s] && [v] + [] == [v];
      AtJoin(c, off + 1, SpacedText(s), [RIGHT_BRACKET]);
    }
  }

  ghost function ItemValue(s: Spaced): Value
    requires LegalItem(s)
  {
    ValueOf(s.doc)
  }

  lemma ItemsJoin(s: Spaced, later: seq<Spaced>)
    requires LegalItem(s) && (later == [] || LegalItems(later))
    ensures LegalItems(later) && LegalItems([s] + later) && ValuesOf([s] + later) == [ItemValue(s)] + ValuesOf(later)
    ensures ListText([s] + later, []) == if later == [] then SpacedText(s) else SpacedText(s) + ([COMMA] + ListText(later, []))
    ensures ItemsNesting(ValuesOf([s] + later)) == Max(Nesting(ItemValue(s)), ItemsNesting(ValuesOf(later)))
    ensures later == [] ==> ValuesOf(later) == [] && ItemsNesting(ValuesOf(later)) == 0
  {
    hide SpacedText, Legal, ValueOf, Nesting;
    ListCons(s, later, []);
    var vs := ValuesOf([s] + later);
    assert vs[1..] == ValuesOf(later);
  }

  lemma ObjectCases(c: seq<byte>, off: nat, depth: nat)
    requires Terminated(c) && off < |c| && c[off] == LEFT_BRACE && ParseObjectAt(c, off, depth).Parsed?
    ensures var p := SkipSpace(c, off + 1);
            && depth < NESTING_LIMIT
            && ParseObjectAt(c, off, depth)
               == if c[p] == RIGHT_BRACE then Parsed(Object([]), p + 1) else ParseMembersAt(c, off, depth + 1, [])
  {
    hide ParseMembersAt, SkipSpace;
    var p := SkipSpace(c, off + 1);
    if c[p] != RIGHT_BRACE {
      SkipAgain(c, off + 1);
      SameItems(c, p - 1, off, depth + 1);
    }
  }

  lemma {:induction false} BracesDerive(c: seq<byte>, off: nat, depth: nat) returns (d: Doc)
    requires Terminated(c) && off < |c| && depth <= NESTING_LIMIT && c[off] == LEFT_BRACE && ParseObjectAt(c, off, depth).Parsed?
    ensures Read(c, off, depth, d, ParseObjectAt(c, off, depth))
    decreases |c| - off, 2
  {
    hide ParseObjectAt, ParseMembersAt, SkipSpace, At, Blanks, LegalMembers, MembersOf, JsonGrammar.MembersText, NumberEnds, Nesting,
      MembersNesting;
    ObjectCases(c, off, depth);
    if c[SkipSpace(c, off + 1)] == RIGHT_BRACE {
      var blank := EmptyDerives(c, off, LEFT_BRACE, RIGHT_BRACE);
      d := Braces(blank, []);
      EmptyBrackets(blank);
    } else {
      var members := MembersDerive(c, off, depth + 1, []);
      d := Braces([], members);
      AtOne(c, off);
      AtJoin(c, off, [LEFT_BRACE], JsonGrammar.MembersText(members, []) + [RIGHT_BRACE]);
      NothingIsBlank();
      assert [] + MembersOf(members) == MembersOf(members);
      ObjectNesting(MembersOf(members));
    }
  }

  /** The name of a member, the white space around it, and the colon. */
  lemma NameDerives(c: seq<byte>, p: nat) returns (before: seq<byte>, q: Strings.Quotation, colon: seq<byte>)
    requires Terminated(c) && p < |c| && ParseNameAt(c, SkipSpace(c, p)).Literal?
    ensures Blanks(before) && Strings.Quotable(q) && Blanks(colon)
    ensures var t := before + (Strings.QuotationText(q) + (colon + [COLON]));
            At(c, p, t) && ParseNameAt(c, SkipSpace(c, p)) == Literal(Strings.QuotationValue(q), p + |t| - 1)
  {
    hide SkipSpace, At, Blanks, ParseStringAt, Strings.Quotable, Strings.QuotationText, Strings.QuotationValue;
    var at := SkipSpace(c, p);
    before := BlanksPassed(c, p);
    q := Strings.QuotationDerives(c, at);
    var next := at + |Strings.QuotationText(q)|;
    colon := BlanksPassed(c, next);
    AtOne(c, next + |colon|);
    AtJoin(c, next, colon, [COLON]);
    AtJoin(c, at, Strings.QuotationText(q), colon + [COLON]);
    AtJoin(c, p, before, Strings.QuotationText(q) + (colon + [COLON]));
  }

  ghost function NamedMember(m: Named): Member
    requires LegalMember(m)
  {
    Member(Strings.QuotationValue(m.name), ItemValue(m.item))
  }

  lemma {:induction false} MemberDerives(c: seq<byte>, off: nat, depth: nat) returns (m: Named)
    requires Terminated(c) && off + 1 < |c| && depth <= NESTING_LIMIT && ParseMemberAt(c, off, depth).NamedValue?
    ensures LegalMember(m) && At(c, off + 1, NamedText(m))
    ensures ParseMemberAt(c, off, depth) == NamedValue(NamedMember(m), off + 1 + |NamedText(m)|)
    ensures depth + Nesting(NamedMember(m).value) <= NESTING_LIMIT
    decreases |c| - off, 0
  {
    hide SkipSpace, At, Blanks, ParseNameAt, ParseValueAt, Strings.Quotable, Strings.QuotationText, Strings.QuotationValue,
      LegalItem, SpacedText, NumberEnds, Nesting;
    var before, q, blank := NameDerives(c, off + 1);
    var colon := ParseNameAt(c, SkipSpace(c, off + 1)).next;
    var s := SpacedDerives(c, colon + 1, depth);
    m := Named(before, q, blank, s);
    var t := before + (Strings.QuotationText(q) + (blank + [COLON]));
    AtJoin(c, off + 1, t, SpacedText(s));
    assert t + SpacedText(s) == before + (Strings.QuotationText(q) + (blank + ([COLON] + SpacedText(s))));
  }

  lemma {:induction false} MembersDerive(c: seq<byte>, off: nat, depth: nat, acc: seq<Member>) returns (members: seq<Named>)
    requires Terminated(c) && off + 1 < |c| && depth <= NESTING_LIMIT && ParseMembersAt(c, off, depth, acc).Parsed?
    ensures members != [] && LegalMembers(members) && At(c, off + 1, JsonGrammar.MembersText(members, []) + [RIGHT_BRACE])
    ensures ParseMembersAt(c, off, depth, acc) == Parsed(Object(acc + MembersOf(members)), off + 2 + |JsonGrammar.MembersText(members, [])|)
    ensures depth + MembersNesting(MembersOf(members)) <= NESTING_LIMIT
    decreases |c| - off, 1
  {
    hide ParseMembersAt, ParseMemberAt, At, LegalMember, LegalMembers, MembersOf, JsonGrammar.MembersText, NamedText, NamedMember,
      NumberEnds, Nesting, MembersNesting;
    ParseMembersUnfolds(c, off, depth, acc);
    var m := MemberDerives(c, off, depth);
    var next := off + 1 + |NamedText(m)|;
    AtOne(c, next);
    if c[next] == COMMA {
      var later := MembersDerive(c, next, depth, acc + [NamedMember(m)]);
      members := [m] + later;
      MembersJoin(m, later);
      AtListed(c, off + 1, NamedText(m), JsonGrammar.MembersText(later, []), RIGHT_BRACE);
      Regrouped(acc, NamedMember(m), MembersOf(later));
    } else {
      members := [m];
      MembersJoin(m, []);
      assert [m] + [] == [m] && [NamedMember(m)] + [] == [NamedMember(m)];
      AtJoin(c, off + 1, NamedText(m), [RIGHT_BRACE]);
    }
  }

  lemma MembersJoin(m: Named, later: seq<Named>)
    requires LegalMember(m) && (later == [] || LegalMembers(later))
    ensures LegalMembers(later) && LegalMembers([m] + later) && MembersOf([m] + later) == [NamedMember(m)] + MembersOf(later)
    ensures JsonGrammar.MembersText([m] + later, [])
         == if later == [] then NamedText(m) else NamedText(m) + ([COMMA] + JsonGrammar.MembersText(later, []))
    ensures MembersNesting(MembersOf([m] + later)) == Max(Nesting(NamedMember(m).value), MembersNesting(MembersOf(later)))
    ensures later == [] ==> MembersOf(later) == [] && MembersNesting(MembersOf(later)) == 0
  {
    hide NamedText, Legal, ValueOf, Nesting, Strings.Quotable, Strings.QuotationValue;
    MembersCons(m, later, []);
    var ms := MembersOf([m] + later);
    assert ms[1..] == MembersOf(later);
  }

  // ----- Exactly these texts -----

  /** A text of the grammar stands at `off` and ends at `next`; a number, only where no longer one stands. */
  ghost predicate Stands(c: seq<byte>, off: nat, next: nat, d: Doc) {
    && Legal(d) && At(c, off, DocText(d)) && next == off + |DocText(d)|
    && (d.Numeral? ==> NumberEnds(c, off, |DocText(d)|))
  }

  ghost predicate ValueStands(c: seq<byte>, off: nat, v: Value, next: nat) {
    exists d :: Stands(c, off, next, d) && ValueOf(d) == v
  }

  /** At any place, a value is read exactly when a text of the grammar stands there that stands for it and does not nest over the
      limit; and it ends where the text ends. */
  lemma ValuesExactly(c: seq<byte>, off: nat, depth: nat, v: Value, next: nat)
    requires Terminated(c) && off < |c| && depth <= NESTING_LIMIT
    ensures ParseValueAt(c, off, depth) == Parsed(v, next)
       <==> ValueStands(c, off, v, next) && next < |c| && depth + Nesting(v) <= NESTING_LIMIT
  {
    hide ParseValueAt, Legal, DocText, ValueOf, At, NumberEnds, Nesting;
    if ParseValueAt(c, off, depth) == Parsed(v, next) {
      var d := DocDerives(c, off, depth);
      assert Stands(c, off, next, d);
    }
    if ValueStands(c, off, v, next) && next < |c| && depth + Nesting(v) <= NESTING_LIMIT {
      var d :| Stands(c, off, next, d) && ValueOf(d) == v;
      DocParses(c, off, depth, d);
    }
  }

  /** A byte order mark or none, white space, a text of the grammar, and what follows. */
  ghost predicate TextIs(text: seq<byte>, mark: seq<byte>, before: seq<byte>, d: Doc, after: seq<byte>) {
    && text == mark + (before + (DocText(d) + after)) && (mark == [] || mark == [239, 187, 191]) && Blanks(before)
    && Stands(text + [NUL], |mark| + |before|, |mark| + |before| + |DocText(d)|, d)
  }

  ghost predicate TextStandsFor(text: seq<byte>, requireEnd: bool, v: Value) {
    exists mark, before, d, after ::
      TextIs(text, mark, before, d, after) && (requireEnd ==> Blanks(after)) && ValueOf(d) == v
  }

  lemma MarkIsSkipped(text: seq<byte>, mark: seq<byte>, before: seq<byte>, d: Doc, after: seq<byte>)
    requires TextIs(text, mark, before, d, after)
    ensures Start(text + [NUL]) == |mark| + |before|
  {
    hide NumberEnds, Legal, DocText, ValueOf, SkipSpace;
    var c, t := text + [NUL], DocText(d);
    DocStart(d);
    assert c == mark + before + t + (after + [NUL]);
    Pieces(mark, before, t, after + [NUL]);
    hide At, Blanks;
    AtIndex(c, |mark| + |before|, t, 0);
    SkipsTo(c, |mark|, before);
    if mark == [] {
      NoMark(c, before, t);
    }
  }

  lemma Pieces(a: seq<byte>, b: seq<byte>, t: seq<byte>, rest: seq<byte>)
    ensures var c := a + b + t + rest; At(c, 0, a) && At(c, |a|, b) && At(c, |a| + |b|, t) && At(c, |a| + |b| + |t|, rest)
  {
  }

  lemma AfterIsBlank(text: seq<byte>, next: nat)
    requires next <= |text| && NulFree(text)
    ensures var c := text + [NUL]; c[SkipSpace(c, next)] == NUL <==> Blanks(text[next..])
  {
    var c := text + [NUL];
    var p := SkipSpace(c, next);
    if Blanks(text[next..]) {
      forall i | next <= i < |text| ensures c[i] <= SPACE { assert text[next..][i - next] == c[i]; }
    }
    if p < |text| {
      assert c[p] == text[p];
    } else {
      forall i | 0 <= i < |text| - next ensures text[next..][i] <= SPACE { assert text[next..][i] == c[next + i]; }
    }
  }

  /** A text is accepted exactly when it is one of the grammar, with white space in front, behind a byte order mark or without, and
      nothing but white space behind it where that is asked for, nested at most 1000 deep; and it is read as what it stands for. */
  lemma TextsExactly(text: seq<byte>, requireEnd: bool, v: Value)
    requires NulFree(text)
    ensures ParseText(text, requireEnd) == Some(v) <==> TextStandsFor(text, requireEnd, v) && Nesting(v) <= 1000
  {
    hide ParseValueAt, Legal, DocText, ValueOf, At, NumberEnds, Nesting, SkipSpace, NulFree, CString, Blanks, Start;
    CStringWhole(text);
    var c := text + [NUL];
    if ParseText(text, requireEnd) == Some(v) {
      TextDerives(text, requireEnd, v);
    }
    if TextStandsFor(text, requireEnd, v) && Nesting(v) <= 1000 {
      var mark, before, d, after :| TextIs(text, mark, before, d, after) && (requireEnd ==> Blanks(after)) && ValueOf(d) == v;
      MarkIsSkipped(text, mark, before, d, after);
      var next := |mark| + |before| + |DocText(d)|;
      DocParses(c, |mark| + |before|, 0, d);
      assert text[next..] == after;
      AfterIsBlank(text, next);
    }
  }

  lemma NothingStands(c: seq<byte>)
    ensures At(c, 0, [])
  {
  }

  /** A text in its pieces. */
  lemma Assembled(text: seq<byte>, mark: seq<byte>, before: seq<byte>, t: seq<byte>)
    requires var c := text + [NUL]; At(c, 0, mark) && At(c, |mark|, before) && At(c, |mark| + |before|, t)
    requires |mark| + |before| + |t| <= |text|
    ensures text == mark + (before + (t + text[|mark| + |before| + |t|..]))
  {
    var c, a, b := text + [NUL], |mark|, |mark| + |before|;
    assert c[0..a] == text[..a] && c[a..b] == text[a..b] && c[b..b + |t|] == text[b..b + |t|];
  }

  /** The byte order mark, if it is skipped, and the white space in front. */
  lemma FrontDerives(c: seq<byte>) returns (mark: seq<byte>, before: seq<byte>)
    requires Terminated(c)
    ensures mark == [] || mark == [239, 187, 191]
    ensures At(c, 0, mark) && Blanks(before) && At(c, |mark|, before) && Start(c) == |mark| + |before|
  {
    hide SkipSpace, At, Blanks;
    NothingStands(c);
    mark := if 4 < |c| && At(c, 0, BYTE_ORDER_MARK) then BYTE_ORDER_MARK else [];
    before := BlanksPassed(c, |mark|);
  }

  lemma TextDerives(text: seq<byte>, requireEnd: bool, v: Value)
    requires NulFree(text) && ParseText(text, requireEnd) == Some(v)
    ensures TextStandsFor(text, requireEnd, v) && Nesting(v) <= 1000
  {
    hide ParseValueAt, Legal, DocText, ValueOf, NumberEnds, Nesting, SkipSpace, NulFree, CString, Blanks, At, Start;
    CStringWhole(text);
    var c := text + [NUL];
    var mark, before := FrontDerives(c);
    var start := |mark| + |before|;
    var d := DocDerives(c, start, 0);
    var next := start + |DocText(d)|;
    var after := text[next..];
    Assembled(text, mark, before, DocText(d));
    AfterIsBlank(text, next);
    assert TextIs(text, mark, before, d, after);
  }

  /** Where an accepted text ends: behind the text of the grammar, or, with nothing but white space behind it asked for, at its end. */
  lemma TextEnds(text: seq<byte>, requireEnd: bool, mark: seq<byte>, before: seq<byte>, d: Doc, after: seq<byte>)
    requires NulFree(text) && TextIs(text, mark, before, d, after) && (requireEnd ==> Blanks(after)) && Nesting(ValueOf(d)) <= 1000
    ensures ParseText(text, requireEnd).Some?
    ensures EndOf(text, requireEnd) == if requireEnd then |text| else |text| - |after|
  {
    hide ParseValueAt, Legal, DocText, ValueOf, At, NumberEnds, Nesting, SkipSpace, NulFree, CString, Blanks, Start;
    CStringWhole(text);
    var c := text + [NUL];
    MarkIsSkipped(text, mark, before, d, after);
    var next := |mark| + |before| + |DocText(d)|;
    DocParses(c, |mark| + |before|, 0, d);
    assert text[next..] == after;
    AfterIsBlank(text, next);
    SkipsToEnd(text, next);
  }

  lemma SkipsToEnd(text: seq<byte>, next: nat)
    requires next <= |text| && NulFree(text)
    ensures var c := text + [NUL]; c[SkipSpace(c, next)] == NUL ==> SkipSpace(c, next) == |text|
  {
    var c := text + [NUL];
    var p := SkipSpace(c, next);
    if p < |text| {
      assert c[p] == text[p];
    }
  }
}
