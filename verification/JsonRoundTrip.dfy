/** What the printers produce is a text of the grammar, and parsing it gives the tree back. */
module JsonRoundTrip {
  import opened Bytes
  import opened JsonValue
  import opened JsonString
  import opened JsonParser
  import Strings = JsonLiteral
  import Numbers = JsonNumber
  import Grammar = JsonGrammar

  // ----- Strings and numbers -----

  /** A printed string, wherever it stands, is read as the string and ends where it ends. */
  lemma QuotedParses(c: seq<byte>, off: nat, s: seq<byte>)
    requires At(c, off, Quoted(s))
    ensures ParseStringAt(c, off) == Literal(s, off + |Quoted(s)|)
  {
    hide At, ParseStringAt;
    hide Strings.Quotable, Strings.QuotationText, Strings.QuotationValue;
    Strings.PrintedIsQuotation(s);
    Strings.QuotationReads(c, off, Strings.PrintedQuotation(s));
  }

  /** A printed integer is read as the integer, whatever follows that is no byte of a number. */
  lemma IntegerParses(c: seq<byte>, off: nat, n: int)
    requires -INTEGER_LIMIT < n < INTEGER_LIMIT && At(c, off, IntegerText(n))
    requires off + |IntegerText(n)| < |c| && !IsNumberByte(c[off + |IntegerText(n)|])
    ensures ParseNumberAt(c, off) == Parsed(Number(n as real), off + |IntegerText(n)|)
  {
    hide At, ParseNumberAt;
    IntegerTextLength(n);
    Numbers.IntegerIsLiteral(n);
    Numbers.LiteralParses(c, off, Numbers.IntegerLiteral(n));
  }

  // ----- Trees as texts of the grammar -----

  function NewLine(format: bool, d: nat): (t: seq<byte>)
    ensures Grammar.Blanks(t)
  {
    if format then [LINE_FEED] + Tabs(d) else []
  }

  /** The text the printers write, taken apart: where it is formatted, a line end and tabs are the white space in front
      of a member and behind the last, a tab that behind a colon, a space that behind a comma of an array. */
  function PrintedDoc(v: Value, format: bool, d: nat): Grammar.Doc
    decreases v, 1
  {
    match v
    case Number(r) => Grammar.Numeral(Numbers.IntegerLiteral(r.Floor))
    case String(s) => Grammar.Quote(Strings.PrintedQuotation(s))
    case Array(items) => Grammar.Brackets([], PrintedItems(items, format, d + 1, []))
    case Object(members) => Grammar.Braces(NewLine(format, d), PrintedMembers(members, format, d + 1))
    case _ => Grammar.Word(v)
  }

  function PrintedItems(items: seq<Value>, format: bool, d: nat, before: seq<byte>): seq<Grammar.Spaced>
    decreases items, 0
  {
    if items == [] then []
    else [Grammar.Spaced(before, PrintedDoc(items[0], format, d), [])]
         + PrintedItems(items[1..], format, d, if format then [SPACE] else [])
  }

  function PrintedMember(m: Member, format: bool, d: nat, last: bool): Grammar.Named
    requires d > 0
    decreases m, 2
  {
    var item := Grammar.Spaced(if format then [TAB] else [], PrintedDoc(m.value, format, d), if last then NewLine(format, d - 1) else []);
    Grammar.Named(NewLine(format, d), Strings.PrintedQuotation(m.key), [], item)
  }

  function PrintedMembers(members: seq<Member>, format: bool, d: nat): seq<Grammar.Named>
    requires d > 0
    decreases members, 0
  {
    if members == [] then []
    else [PrintedMember(members[0], format, d, |members| == 1)] + PrintedMembers(members[1..], format, d)
  }

  /** The text of every printable tree is a text of the grammar, and stands for the tree. */
  lemma {:induction false} PrintedIsText(v: Value, format: bool, d: nat)
    requires Printable(v)
    ensures Grammar.Legal(PrintedDoc(v, format, d))
    ensures Grammar.DocText(PrintedDoc(v, format, d)) == Text(v, format, d)
    ensures Grammar.ValueOf(PrintedDoc(v, format, d)) == v
    decreases v, 1
  {
    hide Strings.QuotationText, Strings.QuotationValue, Strings.Quotable, Strings.PrintedQuotation, Numbers.LiteralText,
      Numbers.LiteralValue, Numbers.Accepted, IntegerText, Quoted, Numbers.IntegerLiteral;
    match v
    case Number(r) =>
      Numbers.IntegerIsLiteral(r.Floor);
      IntegerTextLength(r.Floor);
    case String(s) => Strings.PrintedIsQuotation(s);
    case Array(items) => PrintedItemsAreText(items, format, d + 1, []);
    case Object(members) => PrintedObjectIsText(members, format, d);
    case _ =>
  }

  lemma {:induction false} PrintedItemsAreText(items: seq<Value>, format: bool, d: nat, before: seq<byte>)
    requires Printable(Array(items)) && Grammar.Blanks(before)
    ensures var list := PrintedItems(items, format, d, before);
            && Grammar.LegalItems(list) && Grammar.ValuesOf(list) == items
            && Grammar.ListText(list, []) == (if items == [] then [] else before + ItemsText(items, format, d))
    decreases items, 0
  {
    hide Printable, PrintedDoc, Text, Grammar.Legal, Grammar.LegalItems, Grammar.DocText, Grammar.ValueOf, Grammar.ValuesOf,
      Grammar.ListText, Grammar.SpacedText, Grammar.LegalItem, ItemsText, Separator, Grammar.Blanks;
    if items == [] {
      Grammar.EmptyText([]);
      NoItems();
    } else {
      ItemsFront(items);
      PrintedIsText(items[0], format, d);
      var gap := if format then [SPACE] else [];
      GapIsBlank(format);
      PrintedItemsAreText(items[1..], format, d, gap);
      var first, rest := Grammar.Spaced(before, PrintedDoc(items[0], format, d), []), PrintedItems(items[1..], format, d, gap);
      SpacedIs(before, items[0], format, d);
      Grammar.ListCons(first, rest, []);
      ItemsTextIs(items, format, d, before, gap);
    }
  }

  lemma GapIsBlank(format: bool)
    ensures Grammar.Blanks(if format then [SPACE] else [])
  {
  }

  /** The items' text behind what stands before them, its blanks counted to the items they precede. */
  lemma ItemsTextIs(items: seq<Value>, format: bool, d: nat, before: seq<byte>, gap: seq<byte>)
    requires items != [] && gap == if format then [SPACE] else []
    ensures before + ItemsText(items, format, d)
         == if |items| == 1 then before + Text(items[0], format, d)
            else (before + Text(items[0], format, d)) + ([COMMA] + (gap + ItemsText(items[1..], format, d)))
  {
    hide Text;
    var t, rest := Text(items[0], format, d), ItemsText(items[1..], format, d);
    if |items| == 1 {
      assert t + [] + [] == t;
    } else {
      assert Separator(format) == [COMMA] + gap;
      assert before + (t + ([COMMA] + gap) + rest) == (before + t) + ([COMMA] + (gap + rest));
    }
  }

  lemma NoItems()
    ensures Grammar.LegalItems([]) && Grammar.ValuesOf([]) == [] && Grammar.LegalMembers([]) && Grammar.MembersOf([]) == []
  {
  }

  lemma ItemsFront(items: seq<Value>)
    requires Printable(Array(items)) && items != []
    ensures Printable(items[0]) && Printable(Array(items[1..]))
  {
  }

  lemma SpacedIs(before: seq<byte>, v: Value, format: bool, d: nat)
    requires Grammar.Blanks(before) && Grammar.Legal(PrintedDoc(v, format, d))
    ensures Grammar.LegalItem(Grammar.Spaced(before, PrintedDoc(v, format, d), []))
    ensures Grammar.SpacedText(Grammar.Spaced(before, PrintedDoc(v, format, d), [])) == before + Grammar.DocText(PrintedDoc(v, format, d))
  {
  }

  lemma MembersFront(members: seq<Member>)
    requires Printable(Object(members)) && members != []
    ensures NulFree(members[0].key) && Printable(members[0].value) && Printable(Object(members[1..]))
  {
  }

  /** What stands in front of the first member, and what behind the last, when it is not counted to the members. */
  function Feed(format: bool): seq<byte> { if format then [LINE_FEED] else [] }

  function Indent(format: bool, d: nat): seq<byte> { if format then Tabs(d) else [] }

  lemma {:induction false} PrintedMembersAreText(members: seq<Member>, format: bool, d: nat, blank: seq<byte>)
    requires Printable(Object(members)) && members != [] && d > 0
    ensures var list := PrintedMembers(members, format, d);
            && Grammar.LegalMembers(list) && Grammar.MembersOf(list) == members
            && Grammar.MembersText(list, blank) == Feed(format) + MembersText(members, format, d) + Indent(format, d - 1)
    decreases members, 0
  {
    hide Printable, PrintedDoc, Text, Grammar.Legal, Grammar.LegalMember, Grammar.LegalMembers, Grammar.ValueOf, Grammar.MembersOf,
      Grammar.NamedText, Grammar.MembersText, MemberText, Strings.QuotationValue, Strings.Quotable, PrintedMember, Indent, Feed;
    MembersFront(members);
    var m, last, rest := members[0], |members| == 1, PrintedMembers(members[1..], format, d);
    PrintedMemberIsText(m, format, d, last);
    NoItems();
    if !last {
      PrintedMembersAreText(members[1..], format, d, blank);
    }
    Grammar.MembersCons(PrintedMember(m, format, d, last), rest, blank);
    MembersTextIs(members, format, d);
    JoinedTexts(Grammar.NamedText(PrintedMember(m, format, d, last)), Feed(format), MemberText(m, format, d, last),
                MembersText(members[1..], format, d), Indent(format, d - 1), last);
  }

  lemma MembersTextIs(members: seq<Member>, format: bool, d: nat)
    requires members != []
    ensures MembersText(members, format, d) == MemberText(members[0], format, d, |members| == 1) + MembersText(members[1..], format, d)
    ensures |members| == 1 ==> MembersText(members[1..], format, d) == []
  {
    hide MemberText;
  }

  /** A member's own text and what follows, with the line end counted to the one side or the other. */
  lemma JoinedTexts(n: seq<byte>, f: seq<byte>, t: seq<byte>, inner: seq<byte>, end: seq<byte>, last: bool)
    requires if last then n == f + t + end && inner == [] else n + [COMMA] + f == f + t
    ensures last ==> n == f + (t + inner) + end
    ensures !last ==> n + ([COMMA] + (f + inner + end)) == f + (t + inner) + end
  {
    if last {
      assert t + [] == t;
    } else {
      assert n + ([COMMA] + (f + inner + end)) == (n + [COMMA] + f) + (inner + end);
      assert f + t + (inner + end) == f + (t + inner) + end;
    }
  }

  lemma {:induction false} PrintedMemberIsText(m: Member, format: bool, d: nat, last: bool)
    requires NulFree(m.key) && Printable(m.value) && d > 0
    ensures var n := PrintedMember(m, format, d, last);
            && Grammar.LegalMember(n) && Grammar.Legal(n.item.doc)
            && Strings.QuotationValue(n.name) == m.key && Grammar.ValueOf(n.item.doc) == m.value
            && (last ==> Grammar.NamedText(n) == Feed(format) + MemberText(m, format, d, last) + Indent(format, d - 1))
            && (!last ==> Grammar.NamedText(n) + [COMMA] + Feed(format) == Feed(format) + MemberText(m, format, d, last))
    decreases m, 0
  {
    hide Printable, PrintedDoc, Text, Grammar.Legal, Grammar.DocText, Grammar.ValueOf, Strings.QuotationValue,
      Strings.QuotationText, Strings.Quotable, Strings.PrintedQuotation, Quoted;
    PrintedIsText(m.value, format, d);
    Strings.PrintedIsQuotation(m.key);
    var n := PrintedMember(m, format, d, last);
    NamedIs(n, Quoted(m.key), Text(m.value, format, d));
    MemberIs(m, format, d, last);
  }

  lemma MemberIs(m: Member, format: bool, d: nat, last: bool)
    requires d > 0
    ensures var n := NewLine(format, d) + Quoted(m.key) + [] + [COLON] + (if format then [TAB] else []) + Text(m.value, format, d);
            && (last ==> n + NewLine(format, d - 1) == Feed(format) + MemberText(m, format, d, last) + Indent(format, d - 1))
            && (!last ==> n + [] + [COMMA] + Feed(format) == Feed(format) + MemberText(m, format, d, last))
  {
    hide Quoted, Text, Tabs;
    var q, x, tab := Quoted(m.key), Text(m.value, format, d), if format then [TAB] else [];
    var body := Indent(format, d) + q + ColonText(format) + x;
    assert NewLine(format, d) == Feed(format) + Indent(format, d);
    assert NewLine(format, d - 1) == Feed(format) + Indent(format, d - 1);
    assert MemberText(m, format, d, last) == body + ((if last then [] else [COMMA]) + Feed(format));
    assert ColonText(format) == [COLON] + tab;
    hide *;
    Gathered(Feed(format), Indent(format, d), q, [COLON], tab, x);
    var n := Feed(format) + Indent(format, d) + q + [] + [COLON] + tab + x;
    assert n == Feed(format) + body;
    if last {
      Apart(Feed(format), body, Feed(format), Indent(format, d - 1));
      assert [] + Feed(format) == Feed(format);
    } else {
      Apart(Feed(format), body, [COMMA], Feed(format));
      assert n + [] == n;
    }
  }

  lemma Gathered(f: seq<byte>, i: seq<byte>, q: seq<byte>, c: seq<byte>, t: seq<byte>, x: seq<byte>)
    ensures f + i + q + [] + c + t + x == f + (i + q + (c + t) + x)
  {
    assert f + i + q + [] == f + (i + q);
    assert f + (i + q) + c + t == f + (i + q + (c + t));
  }

  lemma Apart(a: seq<byte>, b: seq<byte>, c: seq<byte>, d: seq<byte>)
    ensures a + b + (c + d) == a + (b + c) + d
    ensures a + b + c + d == a + (b + (c + d))
  {
    assert a + b + (c + d) == a + b + c + d;
  }

  lemma NamedIs(n: Grammar.Named, quoted: seq<byte>, text: seq<byte>)
    requires Strings.QuotationText(n.name) == quoted && Grammar.DocText(n.item.doc) == text
    ensures Grammar.NamedText(n)
         == n.before + quoted + n.colon + [COLON] + n.item.before + text + n.item.after
  {
    hide Strings.QuotationText, Grammar.DocText;
  }

  lemma {:induction false} PrintedObjectIsText(members: seq<Member>, format: bool, d: nat)
    requires Printable(Object(members))
    ensures var doc := PrintedDoc(Object(members), format, d);
            && Grammar.Legal(doc) && Grammar.ValueOf(doc) == Object(members)
            && Grammar.DocText(doc) == Text(Object(members), format, d)
    decreases members, 1
  {
    hide Printable, PrintedDoc, Text, MembersText, Grammar.MembersText, Grammar.LegalMembers, Grammar.MembersOf, Feed, Indent;
    if members == [] {
      EmptyObject(format, d);
    } else {
      PrintedMembersAreText(members, format, d + 1, NewLine(format, d));
      ObjectIs(members, format, d);
    }
  }

  lemma ObjectIs(members: seq<Member>, format: bool, d: nat)
    ensures PrintedDoc(Object(members), format, d) == Grammar.Braces(NewLine(format, d), PrintedMembers(members, format, d + 1))
    ensures Text(Object(members), format, d)
         == [LEFT_BRACE] + ((Feed(format) + MembersText(members, format, d + 1) + Indent(format, d)) + [RIGHT_BRACE])
    ensures Grammar.Blanks(NewLine(format, d))
  {
    hide MembersText;
  }

  lemma EmptyObject(format: bool, d: nat)
    ensures var doc := PrintedDoc(Object([]), format, d);
            Grammar.Legal(doc) && Grammar.ValueOf(doc) == Object([]) && Grammar.DocText(doc) == Text(Object([]), format, d)
  {
  }

  // ----- Round trips -----

  /** The text of a printable tree, followed by a byte no number goes on with, parses back to the tree
      exactly when it does not take the nesting over the limit. */
  lemma ValueParses(c: seq<byte>, off: nat, depth: nat, v: Value, format: bool, d: nat)
    requires Terminated(c) && Printable(v) && depth <= NESTING_LIMIT
    requires At(c, off, Text(v, format, d)) && off + |Text(v, format, d)| < |c|
    requires !IsNumberByte(c[off + |Text(v, format, d)|])
    ensures ParseValueAt(c, off, depth) == Grammar.Expected(v, off + |Text(v, format, d)|, depth)
  {
    hide At, ParseValueAt, Text, Printable, PrintedDoc, Grammar.DocText, Grammar.ValueOf, Grammar.Legal, Grammar.Expected;
    PrintedIsText(v, format, d);
    Grammar.EndsAtOther(c, off, |Text(v, format, d)|);
    Grammar.DocParses(c, off, depth, PrintedDoc(v, format, d));
  }

  /** Printing a tree, formatted or not, and parsing the text gives the tree back
      exactly when the tree is nested no deeper than the parser's limit; otherwise parsing fails. */
  lemma PrintedTextParses(v: Value, format: bool, requireEnd: bool)
    requires Printable(v)
    ensures ParseText(Text(v, format, 0), requireEnd) == if Nesting(v) <= NESTING_LIMIT then Some(v) else None
  {
    hide ParseText, Text, Printable, PrintedDoc, Grammar.DocText, Grammar.ValueOf, Grammar.Legal, Nesting;
    PrintedIsText(v, format, 0);
    var s := Grammar.Spaced([], PrintedDoc(v, format, 0), []);
    assert Grammar.SpacedText(s) == Text(v, format, 0);
    TextNulFree(v, format, 0);
    Grammar.TextParses(s, requireEnd);
  }

  /** Two printable trees with the same text are the same tree. */
  lemma TextDeterminesTree(v: Value, w: Value, format: bool)
    requires Printable(v) && Printable(w) && Nesting(v) <= NESTING_LIMIT && Nesting(w) <= NESTING_LIMIT
    requires Text(v, format, 0) == Text(w, format, 0)
    ensures v == w
  {
    hide ParseText, Text, Printable, Nesting;
    PrintedTextParses(v, format, false);
    PrintedTextParses(w, format, false);
  }
}
