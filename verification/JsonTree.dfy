/**
 The trees of firmware/src/cJSON.c on the heap: which nodes form which tree, how a tree grows, and the
 recursive copy `cJSON_Duplicate`.
 */
module JsonTree {
  import opened Bytes
  import opened JsonValue
  import opened JsonList

  /** A tree as values. */
  datatype Tree = Tree(own: Own, children: seq<Tree>)

  /** The nodes that form a tree, each with its children in order. */
  datatype Shape = Shape(item: Item, subs: seq<Shape>)

  // ----- Nodes and what they form -----

  ghost function Nodes(s: Shape): set<Item>
    decreases s, 1
  {
    {s.item} + NodesOf(s.subs)
  }

  ghost function NodesOf(ss: seq<Shape>): set<Item>
    decreases ss, 0
  {
    if ss == [] then {} else Nodes(ss[0]) + NodesOf(ss[1..])
  }

  /** All nodes but the roots. */
  ghost function Inner(ss: seq<Shape>): (r: set<Item>)
    ensures r <= NodesOf(ss)
  {
    if ss == [] then {} else NodesOf(ss[0].subs) + Inner(ss[1..])
  }

  ghost function Heads(ss: seq<Shape>): (h: seq<Item>)
    ensures |h| == |ss| && forall i :: 0 <= i < |ss| ==> h[i] == ss[i].item
    ensures AsSet(h) <= NodesOf(ss)
  {
    if ss == [] then [] else [ss[0].item] + Heads(ss[1..])
  }

  ghost function TreeOf(s: Shape): Tree
    reads Nodes(s)`content
    decreases s, 1
  {
    Tree(s.item.content, TreesOf(s.subs))
  }

  ghost function TreesOf(ss: seq<Shape>): (ts: seq<Tree>)
    reads NodesOf(ss)`content
    ensures |ts| == |ss|
    decreases ss, 0
  {
    if ss == [] then [] else [TreeOf(ss[0])] + TreesOf(ss[1..])
  }

  /** The pointers agree with the shape: every node's children are chained behind its `child`, and no node occurs twice. */
  ghost predicate Rooted(s: Shape)
    reads Nodes(s)`child, NodesOf(s.subs)`next, NodesOf(s.subs)`prev
    decreases s, 1
  {
    && s.item !in NodesOf(s.subs)
    && Chain(s.item.child, Heads(s.subs))
    && AllRooted(s.subs)
  }

  ghost predicate AllRooted(ss: seq<Shape>)
    reads NodesOf(ss)`child, Inner(ss)`next, Inner(ss)`prev
    decreases ss, 0
  {
    ss == []
    || (assert Nodes(ss[0]) == {ss[0].item} + NodesOf(ss[0].subs);
        Rooted(ss[0]) && AllRooted(ss[1..]) && Nodes(ss[0]) !! NodesOf(ss[1..]))
  }

  lemma {:induction false} ConcatNodes(a: seq<Shape>, b: seq<Shape>)
    ensures NodesOf(a + b) == NodesOf(a) + NodesOf(b)
    ensures Inner(a + b) == Inner(a) + Inner(b)
    ensures Heads(a + b) == Heads(a) + Heads(b)
  {
    if a == [] {
      assert [] + b == b;
    } else {
      assert (a + b)[1..] == a[1..] + b;
      ConcatNodes(a[1..], b);
    }
  }

  lemma {:induction false} ConcatTrees(a: seq<Shape>, b: seq<Shape>)
    ensures TreesOf(a + b) == TreesOf(a) + TreesOf(b)
  {
    if a == [] {
      assert [] + b == b;
    } else {
      assert (a + b)[1..] == a[1..] + b;
      ConcatTrees(a[1..], b);
    }
  }

  lemma {:induction false} ConcatRooted(a: seq<Shape>, b: seq<Shape>)
    ensures AllRooted(a + b) <==> AllRooted(a) && AllRooted(b) && NodesOf(a) !! NodesOf(b)
  {
    hide Rooted;
    if a == [] {
      assert [] + b == b;
    } else {
      assert (a + b)[1..] == a[1..] + b;
      ConcatRooted(a[1..], b);
      ConcatNodes(a[1..], b);
    }
  }

  lemma One(s: Shape)
    ensures NodesOf([s]) == Nodes(s) && Inner([s]) == NodesOf(s.subs) && Heads([s]) == [s.item]
    ensures TreesOf([s]) == [TreeOf(s)] && (AllRooted([s]) <==> Rooted(s))
  {
    assert [s][1..] == [];
  }

  lemma SnocNodes(ss: seq<Shape>, s: Shape)
    ensures NodesOf(ss + [s]) == NodesOf(ss) + Nodes(s)
    ensures Inner(ss + [s]) == Inner(ss) + NodesOf(s.subs)
    ensures Heads(ss + [s]) == Heads(ss) + [s.item]
  {
    hide NodesOf, Inner, Heads;
    ConcatNodes(ss, [s]);
    One(s);
  }

  /** Roots are not below one another, so linking them changes no tree. */
  lemma {:induction false} HeadsApart(ss: seq<Shape>)
    requires AllRooted(ss)
    ensures AsSet(Heads(ss)) !! Inner(ss) && Distinct(Heads(ss))
  {
    if ss != [] {
      HeadsApart(ss[1..]);
      assert Heads(ss) == [ss[0].item] + Heads(ss[1..]);
      assert Nodes(ss[0]) == {ss[0].item} + NodesOf(ss[0].subs);
    }
  }

  /** The nodes are linked as the shape says and hold the tree. */
  ghost predicate Forms(shape: Shape, tree: Tree)
    reads Nodes(shape)
  {
    Rooted(shape) && TreeOf(shape) == tree
  }

  /** How many nodes there are. */
  ghost function Weight(s: Shape): nat
    decreases s, 1
  {
    1 + WeightOf(s.subs)
  }

  ghost function WeightOf(ss: seq<Shape>): nat
    decreases ss, 0
  {
    if ss == [] then 0 else Weight(ss[0]) + WeightOf(ss[1..])
  }

  lemma {:induction false} OneRooted(ss: seq<Shape>, k: nat)
    requires AllRooted(ss) && k < |ss|
    ensures Rooted(ss[k]) && TreesOf(ss)[k] == TreeOf(ss[k])
    ensures Nodes(ss[k]) <= NodesOf(ss) && Weight(ss[k]) <= WeightOf(ss)
  {
    if k > 0 {
      OneRooted(ss[1..], k - 1);
    }
  }

  lemma FormsChild(shape: Shape, tree: Tree, k: nat)
    requires Forms(shape, tree) && k < |shape.subs|
    ensures |tree.children| == |shape.subs| && Forms(shape.subs[k], tree.children[k])
    ensures shape.subs[k].item.next == NextOf(Heads(shape.subs), k)
    ensures Nodes(shape.subs[k]) <= Nodes(shape) && Weight(shape.subs[k]) < Weight(shape)
  {
    OneRooted(shape.subs, k);
    assert Linked(Heads(shape.subs), k);
  }

  lemma FormsStarts(shape: Shape, tree: Tree)
    requires Forms(shape, tree)
    ensures |tree.children| == |shape.subs| && shape.item.content == tree.own
    ensures shape.item.child == if shape.subs == [] then null else shape.subs[0].item
  {
  }

  // ----- What a tree says -----

  /** The value, whatever else an item holds beside what its type calls for. */
  function ValueOf(t: Tree): Value
    decreases t, 1
  {
    match t.own.kind
    case NullKind => Null
    case FalseKind => False
    case TrueKind => True
    case NumberKind => Number(t.own.number)
    case StringKind => String(t.own.text)
    case ArrayKind => Array(ValuesOf(t.children))
    case ObjectKind => Object(MembersOf(t.children))
  }

  function ValuesOf(ts: seq<Tree>): (vs: seq<Value>)
    ensures |vs| == |ts|
    decreases ts, 0
  {
    if ts == [] then [] else [ValueOf(ts[0])] + ValuesOf(ts[1..])
  }

  function MembersOf(ts: seq<Tree>): (ms: seq<Member>)
    ensures |ms| == |ts|
    decreases ts, 0
  {
    if ts == [] then [] else [Member(ts[0].own.key, ValueOf(ts[0]))] + MembersOf(ts[1..])
  }

  lemma {:induction false} OneValue(ts: seq<Tree>, k: nat)
    requires k < |ts|
    ensures ValuesOf(ts)[k] == ValueOf(ts[k])
    ensures MembersOf(ts)[k] == Member(ts[k].own.key, ValueOf(ts[k]))
  {
    if k > 0 {
      OneValue(ts[1..], k - 1);
    }
  }

  // ----- The tree a value is parsed into -----

  const INT_MIN: int := -0x8000_0000

  /** A double as `parse_number` makes an `int` of it: without its fraction, and no further than the limits. */
  function Saturated(r: real): (i: int)
    ensures INT_MIN <= i <= INT_MAX
  {
    if r >= INT_MAX as real then INT_MAX
    else if r <= INT_MIN as real then INT_MIN
    else if r >= 0.0 then r.Floor
    else -(-r).Floor
  }

  /** `i` is `r` without its fraction: of its sign, no larger, and less than one away. */
  ghost predicate Truncates(i: int, r: real) {
    if r >= 0.0 then 0.0 <= i as real <= r < i as real + 1.0 else i as real - 1.0 < r <= i as real <= 0.0
  }

  /** Between the limits a number becomes the one integer that truncates it, and the limit itself at or beyond a limit. */
  lemma SaturatedTruncates(r: real, i: int)
    ensures i == Saturated(r) <==>
      if r >= 2147483647.0 then i == 2147483647
      else if r <= -2147483648.0 then i == -2147483648
      else Truncates(i, r)
  {
    assert INT_MAX as real == 2147483647.0 && INT_MIN as real == -2147483648.0;
    var k := Saturated(r);
    if INT_MIN as real < r < INT_MAX as real {
      assert Truncates(k, r);
      if Truncates(i, r) {
        assert -1.0 < i as real - k as real < 1.0;
        assert i - k == (i as real - k as real).Floor;
      }
    }
  }

  /** The nodes' contents for a value: nothing is set beside what its type calls for, but a true is also the number 1. */
  function Built(v: Value, key: seq<byte>): (t: Tree)
    ensures t.own.key == key
    decreases v, 1
  {
    match v
    case Null => Tree(Own(NullKind, 0.0, 0, [], key), [])
    case False => Tree(Own(FalseKind, 0.0, 0, [], key), [])
    case True => Tree(Own(TrueKind, 0.0, 1, [], key), [])
    case Number(r) => Tree(Own(NumberKind, r, Saturated(r), [], key), [])
    case String(s) => Tree(Own(StringKind, 0.0, 0, s, key), [])
    case Array(items) => Tree(Own(ArrayKind, 0.0, 0, [], key), BuiltItems(items))
    case Object(members) => Tree(Own(ObjectKind, 0.0, 0, [], key), BuiltMembers(members))
  }

  function BuiltItems(items: seq<Value>): seq<Tree>
    decreases items, 0
  {
    if items == [] then [] else [Built(items[0], [])] + BuiltItems(items[1..])
  }

  function BuiltMembers(members: seq<Member>): seq<Tree>
    decreases members, 0
  {
    if members == [] then [] else [Built(members[0].value, members[0].key)] + BuiltMembers(members[1..])
  }

  /** It says what was parsed. */
  lemma {:induction false} BuiltSays(v: Value, key: seq<byte>)
    ensures ValueOf(Built(v, key)) == v
    decreases v, 1
  {
    match v
    case Array(items) => BuiltItemsSay(items);
    case Object(members) => BuiltMembersSay(members);
    case _ =>
  }

  lemma {:induction false} BuiltItemsSay(items: seq<Value>)
    ensures ValuesOf(BuiltItems(items)) == items
    decreases items, 0
  {
    hide Built;
    if items != [] {
      BuiltSays(items[0], []);
      BuiltItemsSay(items[1..]);
      assert BuiltItems(items)[1..] == BuiltItems(items[1..]);
    }
  }

  lemma {:induction false} BuiltMembersSay(members: seq<Member>)
    ensures MembersOf(BuiltMembers(members)) == members
    decreases members, 0
  {
    hide Built;
    if members != [] {
      BuiltSays(members[0].value, members[0].key);
      BuiltMembersSay(members[1..]);
      assert Built(members[0].value, members[0].key).own.key == members[0].key;
      assert BuiltMembers(members)[1..] == BuiltMembers(members[1..]);
    }
  }

  lemma {:induction false} SnocBuilt(items: seq<Value>, v: Value)
    ensures BuiltItems(items + [v]) == BuiltItems(items) + [Built(v, [])]
  {
    hide Built;
    if items == [] {
      assert [v][1..] == [];
    } else {
      assert (items + [v])[1..] == items[1..] + [v];
      SnocBuilt(items[1..], v);
    }
  }

  lemma {:induction false} SnocBuiltMember(members: seq<Member>, m: Member)
    ensures BuiltMembers(members + [m]) == BuiltMembers(members) + [Built(m.value, m.key)]
  {
    hide Built;
    if members == [] {
      assert [m][1..] == [];
    } else {
      assert (members + [m])[1..] == members[1..] + [m];
      SnocBuiltMember(members[1..], m);
    }
  }

  /** In every node of a tree that is built the int is that of the double, but a true is 1; and numbers, texts and children
      are only where the type calls for them. */
  predicate Rounded(t: Tree)
    decreases t, 1
  {
    && (t.own.integer == if t.own.kind == TrueKind then 1 else Saturated(t.own.number))
    && (t.own.kind != NumberKind ==> t.own.number == 0.0) && (t.own.kind != StringKind ==> t.own.text == [])
    && (t.own.kind !in {ArrayKind, ObjectKind} ==> t.children == [])
    && AllRounded(t.children)
  }

  predicate AllRounded(ts: seq<Tree>)
    decreases ts, 0
  {
    ts == [] || (Rounded(ts[0]) && AllRounded(ts[1..]))
  }

  lemma {:induction false} BuiltIsRounded(v: Value, key: seq<byte>)
    ensures Rounded(Built(v, key))
    decreases v, 1
  {
    match v
    case Array(items) => BuiltItemsRounded(items);
    case Object(members) => BuiltMembersRounded(members);
    case _ =>
  }

  lemma {:induction false} BuiltItemsRounded(items: seq<Value>)
    ensures AllRounded(BuiltItems(items))
    decreases items, 0
  {
    hide Built, Rounded;
    if items != [] {
      BuiltIsRounded(items[0], []);
      BuiltItemsRounded(items[1..]);
      assert BuiltItems(items)[1..] == BuiltItems(items[1..]);
    }
  }

  lemma {:induction false} BuiltMembersRounded(members: seq<Member>)
    ensures AllRounded(BuiltMembers(members))
    decreases members, 0
  {
    hide Built, Rounded;
    if members != [] {
      BuiltIsRounded(members[0].value, members[0].key);
      BuiltMembersRounded(members[1..]);
      assert BuiltMembers(members)[1..] == BuiltMembers(members[1..]);
    }
  }

  // ----- Growing -----

  /** A row of fresh siblings from `first` to `last`, the first knowing nothing of the last. */
  ghost predicate Row(first: Item?, last: Item?, ss: seq<Shape>)
    reads NodesOf(ss)`child, NodesOf(ss)`next, NodesOf(ss)`prev
  {
    && AllRooted(ss)
    && Chain(first, Heads(ss))
    && (if ss == [] then last == null else first.prev == null && last == ss[|ss| - 1].item)
  }

  /** One more sibling behind the last, as parsing and copying do it. */
  method LinkSibling(first: Item?, last: Item?, item: Item, ghost ss: seq<Shape>, ghost s: Shape) returns (head: Item)
    requires Row(first, last, ss) && Rooted(s) && s.item == item && NodesOf(ss) !! Nodes(s)
    requires item.next == null && item.prev == null
    modifies item`prev, Optional(last)`next
    ensures Row(head, item, ss + [s])
    ensures head == if ss == [] then item else first
  {
    hide Rooted, AllRooted, Inner, NodesOf, Nodes, Heads;
    SnocNodes(ss, s);
    ConcatRooted(ss, [s]);
    One(s);
    HeadsApart(ss + [s]);
    ghost var hs, all := Heads(ss), Heads(ss + [s]);
    assert item == all[|hs|] && item in AsSet(all);
    head := item;
    if last != null {
      head := first;
      assert last == hs[|hs| - 1] == all[|hs| - 1] && last in AsSet(all);
      assert forall i | 0 <= i < |hs| :: hs[i] == all[i] && all[i] != all[|hs|];
      assert first == hs[0];
      assert item !in Inner(ss + [s]) && last !in Inner(ss + [s]);
      LinkLast(hs, last, item, ss + [s]);
    } else {
      assert all == [item] && Linked(all, 0);
    }
  }

  /** A chain grows by one item behind its last; trees of which both are roots stay as they are. */
  method LinkLast(ghost hs: seq<Item>, last: Item, item: Item, ghost trees: seq<Shape>)
    requires hs != [] && Chain(hs[0], hs) && last == hs[|hs| - 1] && hs[0].prev == null
    requires item !in hs && item.next == null
    requires AllRooted(trees) && item !in Inner(trees) && last !in Inner(trees)
    modifies item`prev, last`next
    ensures Chain(hs[0], hs + [item]) && hs[0].prev == null && AllRooted(trees)
  {
    ghost var all := hs + [item];
    assert forall i | 0 <= i < |hs| :: Linked(hs, i);
    last.next := item;
    assert AllRooted(trees);
    item.prev := last;
    assert AllRooted(trees);
    forall i | 0 <= i < |all|
      ensures Linked(all, i)
    {
      if i < |hs| {
        assert old(Linked(hs, i));
      }
    }
  }

  lemma InsertedRooted(ss: seq<Shape>, which: nat, s: Shape)
    requires AllRooted(ss) && Rooted(s) && NodesOf(ss) !! Nodes(s)
    ensures AllRooted(Inserted(ss, which, s)) && NodesOf(Inserted(ss, which, s)) == NodesOf(ss) + Nodes(s)
    ensures Heads(Inserted(ss, which, s)) == Inserted(Heads(ss), which, s.item)
    ensures TreesOf(Inserted(ss, which, s)) == Inserted(TreesOf(ss), which, TreeOf(s))
  {
    hide NodesOf, Inner, Heads, TreesOf, AllRooted, Rooted;
    var k := if which < |ss| then which else |ss|;
    var a, b := ss[..k], ss[k..];
    assert ss == a + b && Inserted(ss, which, s) == a + [s] + b;
    One(s);
    ConcatNodes(a, b);
    ConcatNodes(a, [s]);
    ConcatNodes(a + [s], b);
    ConcatTrees(a, b);
    ConcatTrees(a, [s]);
    ConcatTrees(a + [s], b);
    ConcatRooted(a, b);
    ConcatRooted(a, [s]);
    ConcatRooted(a + [s], b);
  }

  /** The trees parsed so far, in a row. */
  ghost predicate Grown(first: Item?, last: Item?, ss: seq<Shape>, trees: seq<Tree>)
    reads NodesOf(ss)
  {
    Row(first, last, ss) && TreesOf(ss) == trees
  }

  /** The same with one more item behind them, which holds nothing yet. */
  ghost predicate Waiting(first: Item, item: Item, ss: seq<Shape>, trees: seq<Tree>)
    reads NodesOf(ss), item`next, item`prev
  {
    && AllRooted(ss) && TreesOf(ss) == trees && item !in NodesOf(ss)
    && first in AsSet(Heads(ss) + [item]) && first.prev == null && Chain(first, Heads(ss) + [item])
  }

  /** Nothing has been read into the item, but perhaps its key. */
  predicate Unset(item: Item)
    reads item`content, item`child
  {
    item.child == null && item.content.number == 0.0 && item.content.integer == 0 && item.content.text == []
  }

  lemma NodesAre(s: Shape)
    ensures Nodes(s) == {s.item} + NodesOf(s.subs)
  {
  }

  lemma LeafForms(item: Item)
    requires item.child == null
    ensures Forms(Shape(item, []), Tree(item.content, [])) && NodesOf([]) == {}
  {
  }

  lemma NothingGrown()
    ensures Grown(null, null, [], []) && NodesOf([]) == {} && BuiltItems([]) == [] && BuiltMembers([]) == []
  {
  }

  lemma LastIsGrown(first: Item?, last: Item?, ss: seq<Shape>, trees: seq<Tree>)
    requires Grown(first, last, ss, trees)
    ensures last != null ==> last in NodesOf(ss)
  {
    if last != null {
      assert last == Heads(ss)[|ss| - 1];
      assert last in AsSet(Heads(ss));
    }
  }

  /** A fresh item is attached before anything is read into it. */
  method AttachBlank(first: Item?, last: Item?, item: Item, ghost ss: seq<Shape>, ghost trees: seq<Tree>) returns (head: Item)
    requires Grown(first, last, ss, trees) && item !in NodesOf(ss)
    requires item.next == null && item.prev == null && item.child == null
    modifies item`prev, Optional(last)`next
    ensures Waiting(head, item, ss, trees)
  {
    hide AllRooted, TreesOf, Inner;
    ghost var s := Shape(item, []);
    BlankRooted(item);
    SnocNodes(ss, s);
    assert allocated(NodesOf(ss));
    head := LinkSibling(first, last, item, ss, s);
    ConcatRooted(ss, [s]);
    assert TreesOf(ss) == trees;
    assert (Heads(ss) + [item])[0] == head;
  }

  lemma BlankRooted(item: Item)
    requires item.child == null
    ensures Rooted(Shape(item, [])) && Nodes(Shape(item, [])) == {item}
  {
  }

  /** What has been read into the item makes it the root of a tree. */
  lemma BlankFilled(first: Item, item: Item, ss: seq<Shape>, trees: seq<Tree>, s: Shape, t: Tree)
    requires Waiting(first, item, ss, trees) && Forms(s, t) && s.item == item && NodesOf(ss) !! Nodes(s)
    ensures Grown(first, item, ss + [s], trees + [t]) && NodesOf(ss + [s]) == NodesOf(ss) + Nodes(s)
  {
    hide AllRooted, TreesOf, Inner, Rooted;
    SnocNodes(ss, s);
    ConcatRooted(ss, [s]);
    ConcatTrees(ss, [s]);
    One(s);
  }

  /** The row becomes the children. */
  lemma RowBecomesChildren(item: Item, last: Item?, ss: seq<Shape>, own: Own, trees: seq<Tree>)
    requires Grown(item.child, last, ss, trees) && item !in NodesOf(ss) && item.content == own
    ensures Forms(Shape(item, ss), Tree(own, trees)) && Nodes(Shape(item, ss)) == {item} + NodesOf(ss)
  {
  }

  /** A tree and an item to go into it: before any pointer moves, the trees of the longer list are in order. */
  lemma BeforeJoining(p: Shape, s: Shape, which: nat, t: Tree, u: Tree)
    requires Forms(p, t) && Forms(s, u) && Nodes(p) !! Nodes(s)
    ensures Holds(p.item, Heads(p.subs)) && Outside(s.item, p.item, Heads(p.subs))
    ensures AllRooted(Inserted(p.subs, which, s)) && TreesOf(Inserted(p.subs, which, s)) == Inserted(t.children, which, u)
    ensures p.item !in NodesOf(Inserted(p.subs, which, s)) && p.item.content == t.own
    ensures AsSet(Heads(p.subs)) + {s.item} !! Inner(Inserted(p.subs, which, s))
    ensures Heads(Inserted(p.subs, which, s)) == Inserted(Heads(p.subs), which, s.item)
  {
    hide NodesOf, Inner, Heads, TreesOf, AllRooted;
    InsertedRooted(p.subs, which, s);
    HeadsApart(Inserted(p.subs, which, s));
    var items, all := Heads(p.subs), Inserted(Heads(p.subs), which, s.item);
    assert forall x <- AsSet(items) + {s.item} :: x in AsSet(all);
  }

  /** Afterwards the joined tree stands. */
  lemma AfterJoining(parent: Item, ss: seq<Shape>, t: Tree)
    requires Chain(parent.child, Heads(ss)) && AllRooted(ss) && parent !in NodesOf(ss)
    requires parent.content == t.own && TreesOf(ss) == t.children
    ensures Forms(Shape(parent, ss), t)
  {
  }

  /** What an append or an insertion at `which` does to the trees: the parent's gains the item's, whole. */
  method InsertTree(parent: Item, which: int, item: Item, ghost p: Shape, ghost s: Shape, ghost t: Tree, ghost u: Tree)
    requires Forms(p, t) && p.item == parent && Forms(s, u) && s.item == item && Nodes(p) !! Nodes(s)
    requires item.next == null
    modifies parent`child, item`next, item`prev, AsSet(Heads(p.subs))`next, AsSet(Heads(p.subs))`prev
    ensures which < 0 ==> Forms(p, t) && Forms(s, u)
    ensures which >= 0 ==> Forms(Shape(parent, Inserted(p.subs, which, s)), t.(children := Inserted(t.children, which, u)))
  {
    hide Forms, Rooted, AllRooted, TreesOf, Chain, Inserted;
    ghost var at: nat := if which < 0 then 0 else which;
    BeforeJoining(p, s, at, t, u);
    ghost var ss := Inserted(p.subs, at, s);
    assert allocated(NodesOf(ss)) && allocated(Nodes(p)) && allocated(Nodes(s));
    InsertItemInArray(parent, which, item, Heads(p.subs));
    if which >= 0 {
      assert AllRooted(ss) && TreesOf(ss) == Inserted(t.children, at, u);
      AfterJoining(parent, ss, t.(children := Inserted(t.children, at, u)));
    }
  }

  // ----- Copying -----

  /** What copying keeps of an item: texts end where their readers stop. */
  function CopiedOwn(own: Own): Own {
    own.(text := CString(own.text), key := CString(own.key))
  }

  function Copied(t: Tree): Tree
    decreases t, 1
  {
    Tree(CopiedOwn(t.own), CopiedAll(t.children))
  }

  function CopiedAll(ts: seq<Tree>): (cs: seq<Tree>)
    ensures |cs| == |ts|
    decreases ts, 0
  {
    if ts == [] then [] else [Copied(ts[0])] + CopiedAll(ts[1..])
  }

  lemma {:induction false} SnocCopied(ts: seq<Tree>, t: Tree)
    ensures CopiedAll(ts + [t]) == CopiedAll(ts) + [Copied(t)]
  {
    if ts == [] {
      assert [t][1..] == [] && [] + [t] == [t];
    } else {
      assert (ts + [t])[1..] == ts[1..] + [t];
      SnocCopied(ts[1..], t);
    }
  }

  lemma CopiedMore(ts: seq<Tree>, k: nat)
    requires k < |ts|
    ensures CopiedAll(ts[..k + 1]) == CopiedAll(ts[..k]) + [Copied(ts[k])]
  {
    SnocCopied(ts[..k], ts[k]);
    assert ts[..k] + [ts[k]] == ts[..k + 1];
  }

  lemma CopiedNone(ts: seq<Tree>)
    ensures CopiedAll(ts[..0]) == []
  {
  }

  /** The copy so far: its own value, and the copied children in a row. */
  ghost predicate Begun(copy: Item, own: Own, next: Item?, copies: seq<Shape>, trees: seq<Tree>)
    reads {copy}, NodesOf(copies)
  {
    && copy.content == own && copy.next == null && copy.prev == null && copy !in NodesOf(copies)
    && Row(copy.child, next, copies) && TreesOf(copies) == trees
  }

  /** One copied child goes behind the ones copied before. */
  method AttachCopy(copy: Item, ghost own: Own, next: Item?, newChild: Item,
      ghost copies: seq<Shape>, ghost s: Shape, ghost trees: seq<Tree>)
    requires Begun(copy, own, next, copies, trees) && Rooted(s) && s.item == newChild
    requires NodesOf(copies) !! Nodes(s) && copy !in Nodes(s)
    requires newChild.next == null && newChild.prev == null
    modifies copy`child, newChild`prev, Optional(next)`next
    ensures Begun(copy, own, newChild, copies + [s], trees + [old(TreeOf(s))])
  {
    ConcatTrees(copies, [s]);
    One(s);
    ghost var all, tree := TreesOf(copies + [s]), TreeOf(s);
    assert allocated(NodesOf(copies + [s])) && allocated(Nodes(s));
    LinkCopy(copy, next, newChild, copies, s);
    assert TreesOf(copies + [s]) == all && TreeOf(s) == tree;
  }

  method LinkCopy(copy: Item, next: Item?, newChild: Item, ghost copies: seq<Shape>, ghost s: Shape)
    requires Row(copy.child, next, copies) && Rooted(s) && s.item == newChild
    requires NodesOf(copies) !! Nodes(s) && copy !in NodesOf(copies) && copy !in Nodes(s)
    requires newChild.next == null && newChild.prev == null
    modifies copy`child, newChild`prev, Optional(next)`next
    ensures Row(copy.child, newChild, copies + [s]) && copy !in NodesOf(copies + [s])
    ensures copy.next == old(copy.next) && copy.prev == old(copy.prev)
  {
    SnocNodes(copies, s);
    var head := LinkSibling(copy.child, next, newChild, copies, s);
    copy.child := head;
  }

  lemma CopyStarts(copy: Item)
    requires copy.next == null && copy.prev == null && copy.child == null
    ensures Begun(copy, copy.content, null, [], []) && NodesOf([]) == {}
  {
  }

  lemma LastIsInside(copy: Item, own: Own, next: Item?, copies: seq<Shape>, trees: seq<Tree>)
    requires Begun(copy, own, next, copies, trees)
    ensures next != null ==> next in NodesOf(copies)
  {
    if next != null {
      assert next == Heads(copies)[|copies| - 1];
      assert next in AsSet(Heads(copies));
    }
  }

  lemma CopyEnds(copy: Item, own: Own, next: Item?, copies: seq<Shape>, trees: seq<Tree>)
    requires Begun(copy, own, next, copies, trees)
    ensures copy.next == null && copy.prev == null && Forms(Shape(copy, copies), Tree(own, trees))
    ensures Nodes(Shape(copy, copies)) == {copy} + NodesOf(copies)
  {
  }

  /** One turn of the loop over the children. */
  method CopyNext(newitem: Item, ghost own: Own, next: Item?, child: Item,
      ghost shape: Shape, ghost tree: Tree, ghost copies: seq<Shape>, ghost k: nat) returns (newchild: Item, ghost s: Shape)
    requires Forms(shape, tree) && k < |shape.subs| == |tree.children| && child == shape.subs[k].item
    requires Begun(newitem, own, next, copies, CopiedAll(tree.children[..k]))
    requires newitem !in Nodes(shape) && NodesOf(copies) !! Nodes(shape)
    modifies newitem`child, Optional(next)`next
    ensures Forms(shape, tree)
    ensures Begun(newitem, own, newchild, copies + [s], CopiedAll(tree.children[..k + 1]))
    ensures fresh(Nodes(s)) && s.item == newchild
    decreases shape, 0
  {
    hide Heads, Inner, Forms, Begun, Rooted, AllRooted, CopiedAll, TreesOf;
    FormsChild(shape, tree, k);
    CopiedMore(tree.children, k);
    ghost var done := CopiedAll(tree.children[..k]);
    LastIsInside(newitem, own, next, copies, done);
    assert allocated(NodesOf(copies)) && allocated(Nodes(shape));
    newchild, s := DuplicateTree(child, shape.subs[k], tree.children[k]);
    assert newchild in Nodes(s) && NodesOf(copies) !! Nodes(s);
    assert Begun(newitem, own, next, copies, done) && Forms(shape, tree);
    assert (next != null ==> next !in Nodes(shape)) && newchild !in Nodes(shape);
    assert allocated(Nodes(shape));
    FormsRooted(s, Copied(tree.children[k]));
    AttachCopy(newitem, own, next, newchild, copies, s, done);
  }

  lemma FormsRooted(s: Shape, t: Tree)
    requires Forms(s, t)
    ensures Rooted(s) && TreeOf(s) == t
  {
  }

  /** The recursive copy: made of fresh nodes, the original untouched. */
  method DuplicateTree(item: Item, ghost shape: Shape, ghost tree: Tree) returns (newitem: Item, ghost copy: Shape)
    requires Forms(shape, tree) && shape.item == item
    ensures Forms(copy, Copied(tree)) && copy.item == newitem && fresh(Nodes(copy))
    ensures newitem.next == null && newitem.prev == null
    decreases shape, 1
  {
    hide Heads, Inner, Nodes, NodesOf, Forms, Begun, Rooted, AllRooted, CopiedAll, TreesOf;
    ghost var subs, copies: seq<Shape> := shape.subs, [];
    ghost var own := CopiedOwn(tree.own);
    assert allocated(Nodes(shape));
    FormsStarts(shape, tree);
    newitem := new Item(CopiedOwn(item.content));
    CopyStarts(newitem);
    CopiedNone(tree.children);
    var next: Item?, child := null, item.child;
    ghost var k := 0;
    while child != null
      invariant k <= |subs| && |copies| == k && |tree.children| == |subs|
      invariant child == (if k < |subs| then subs[k].item else null)
      invariant Forms(shape, tree) && fresh(newitem) && fresh(NodesOf(copies))
      invariant Begun(newitem, own, next, copies, CopiedAll(tree.children[..k]))
      decreases |subs| - k
    {
      LastIsInside(newitem, own, next, copies, CopiedAll(tree.children[..k]));
      var newchild, s := CopyNext(newitem, own, next, child, shape, tree, copies, k);
      SnocNodes(copies, s);
      FormsChild(shape, tree, k);
      next, child := newchild, child.next;
      copies := copies + [s];
      k := k + 1;
    }
    assert tree.children[..k] == tree.children;
    CopyEnds(newitem, own, next, copies, CopiedAll(tree.children));
    copy := Shape(newitem, copies);
  }

  /** `cJSON_Duplicate`, with the tree below the item or without it. */
  method Duplicate(item: Item?, recurse: bool, ghost shape: Shape, ghost tree: Tree)
    returns (newitem: Item?, ghost copy: Shape)
    requires item != null ==> Forms(shape, tree) && shape.item == item
    ensures item == null <==> newitem == null
    ensures item != null ==> copy.item == newitem && fresh(Nodes(copy)) && newitem.next == null && newitem.prev == null
    ensures item != null ==> Forms(copy, if recurse then Copied(tree) else Tree(CopiedOwn(tree.own), []))
  {
    copy := shape;
    if item == null {
      return null, copy;
    }
    if recurse {
      newitem, copy := DuplicateTree(item, shape, tree);
    } else {
      newitem := new Item(CopiedOwn(item.content));
      copy := Shape(newitem, []);
    }
  }

  // ----- What the copy says -----

  /** No text and no key holds a NUL. */
  predicate Whole(t: Tree)
    decreases t, 1
  {
    NulFree(t.own.text) && NulFree(t.own.key) && AllWhole(t.children)
  }

  predicate AllWhole(ts: seq<Tree>)
    decreases ts, 0
  {
    ts == [] || (Whole(ts[0]) && AllWhole(ts[1..]))
  }

  /** The copy of a tree is the tree, in all that its nodes hold, exactly when no text and no key holds a NUL. */
  lemma {:induction false} CopyIsTheTree(t: Tree)
    ensures Copied(t) == t <==> Whole(t)
    decreases t, 1
  {
    hide CString, NulFree;
    CStringWhole(t.own.text);
    CStringWhole(t.own.key);
    CopiesAreTheTrees(t.children);
  }

  lemma {:induction false} CopiesAreTheTrees(ts: seq<Tree>)
    ensures CopiedAll(ts) == ts <==> AllWhole(ts)
    decreases ts, 0
  {
    hide Copied, Whole;
    if ts != [] {
      CopyIsTheTree(ts[0]);
      CopiesAreTheTrees(ts[1..]);
      assert CopiedAll(ts)[0] == Copied(ts[0]) && CopiedAll(ts)[1..] == CopiedAll(ts[1..]);
    }
  }

  /** The value as C readers see it: texts and keys end at their first NUL. */
  function Cut(v: Value): Value
    decreases v, 1
  {
    match v
    case String(s) => String(CString(s))
    case Array(items) => Array(CutItems(items))
    case Object(members) => Object(CutMembers(members))
    case _ => v
  }

  function CutItems(items: seq<Value>): seq<Value>
    decreases items, 0
  {
    if items == [] then [] else [Cut(items[0])] + CutItems(items[1..])
  }

  function CutMembers(members: seq<Member>): seq<Member>
    decreases members, 0
  {
    if members == [] then []
    else [Member(CString(members[0].key), Cut(members[0].value))] + CutMembers(members[1..])
  }

  /** A copy says what the original says, cut at the first NUL of every text and key. */
  lemma {:induction false} CopyIsCut(t: Tree)
    ensures ValueOf(Copied(t)) == Cut(ValueOf(t))
    decreases t, 1
  {
    hide ValuesOf, MembersOf, CutItems, CutMembers, CopiedAll, CString;
    CopiesAreCut(t.children);
  }

  lemma {:induction false} CopiesAreCut(ts: seq<Tree>)
    ensures ValuesOf(CopiedAll(ts)) == CutItems(ValuesOf(ts))
    ensures MembersOf(CopiedAll(ts)) == CutMembers(MembersOf(ts))
    decreases ts, 0
  {
    if ts != [] {
      CopyIsCut(ts[0]);
      CopiesAreCut(ts[1..]);
      assert CopiedAll(ts)[1..] == CopiedAll(ts[1..]);
      assert ValuesOf(ts)[1..] == ValuesOf(ts[1..]) && MembersOf(ts)[1..] == MembersOf(ts[1..]);
    }
  }

}
