/**
 Printing, parsing and comparing on the nodes, one after the other, as users of firmware/src/cJSON.c do.
 */
module JsonWhole {
  import opened Bytes
  import opened JsonValue
  import opened JsonList
  import opened JsonTree
  import opened JsonParser
  import opened JsonCompare
  import Printer = JsonPrinter
  import RoundTrip = JsonRoundTrip

  /** Printing nodes and parsing the text: new nodes that say the same, texts and keys as C strings, exactly when
      the text fits and the tree is nested no deeper than the limit. It compares equal to the original
      when members with the same key agree. */
  method PrintAndParse(item: Item, format: bool, requireEnd: bool, ghost s: Shape, ghost t: Tree)
    returns (again: Item?, same: bool, ghost p: Shape)
    requires s.item == item && Forms(s, t) && Printer.PlainNumbers(ValueOf(t))
    ensures var v := Cut(ValueOf(t));
            && (again != null <==> |Text(v, format, 0)| + 2 <= INT_MAX && Nesting(v) <= NESTING_LIMIT)
            && (again != null ==> ParseBuffer.Formed(again, p, v, []) && fresh(Nodes(p)))
    ensures again != null && Consistent(ValueOf(t)) ==> same
  {
    hide ParseText, Text, Printable, Nesting, Forms, ValueOf, Built, Nodes, Cut;
    hide Printer.PlainNumbers, Consistent, Compare;
    ghost var v := Cut(ValueOf(t));
    Printer.PlainIsPrintable(t);
    RoundTrip.PrintedTextParses(v, format, requireEnd);
    p := s;
    same := false;
    assert allocated(Nodes(s));
    var text := Printer.PrintBuffer.Print(item, format, s, t);
    match text {
      case None => again := null;
      case Some(bytes) =>
        var end;
        again, end, p := ParseBuffer.ParseWithOpts(bytes, requireEnd);
        if again != null {
          BuiltSays(v, []);
          assert Forms(s, t) && allocated(Nodes(p));
          same := CompareTrees(item, again, s, p, t, Built(v, []));
          ReadAgainMeans(ValueOf(t));
          assert Forms(p, Built(v, []));
        }
    }
  }

  lemma ReadAgainMeans(v: Value)
    ensures Consistent(v) ==> Compare(v, Cut(v))
  {
    hide Consistent, Compare, MeaningOf, Cut;
    CutMeans(v, iset{});
    CompareMeans(v, Cut(v), iset{});
  }
}
