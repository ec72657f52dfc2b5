/**
 `cJSON_Compare` with case-sensitive keys, `get_object_item`, and what `cJSON_Duplicate` makes of
 both, in firmware/src/cJSON.c: when two trees compare equal. Texts and keys are read up to their
 first NUL, as `strcmp` reads them.
 */
module JsonCompare {
  import opened Bytes
  import opened JsonValue
  import opened JsonList
  import opened JsonTree

  /** CJSON_DOUBLE_PRECISION */
  const PRECISION: real := 1.0 / 10000000000000000.0

  function Size(v: Value): nat
    decreases v, 1
  {
    match v
    case Array(items) => 1 + ItemsSize(items)
    case Object(members) => 1 + MembersSize(members)
    case _ => 0
  }

  function ItemsSize(items: seq<Value>): nat
    decreases items, 0
  {
    if items == [] then 0 else 1 + Size(items[0]) + ItemsSize(items[1..])
  }

  function MembersSize(members: seq<Member>): nat
    decreases members, 0
  {
    if members == [] then 0 else 1 + Size(members[0].value) + MembersSize(members[1..])
  }

  /** `strcmp` finds no difference. */
  predicate SameText(s: seq<byte>, t: seq<byte>) { CString(s) == CString(t) }

  predicate SameNumber(x: real, y: real) { -PRECISION <= x - y <= PRECISION }

  // ----- The comparison as a recursion on values -----

  /** The first member with that key. */
  function Lookup(members: seq<Member>, key: seq<byte>): (r: Option<Value>)
    ensures r.Some? ==> Size(r.value) < MembersSize(members)
  {
    if members == [] then None
    else if SameText(members[0].key, key) then Some(members[0].value)
    else Lookup(members[1..], key)
  }

  predicate Compare(a: Value, b: Value)
    decreases Size(a) + Size(b), 1
  {
    match (a, b)
    case (Null, Null) => true
    case (False, False) => true
    case (True, True) => true
    case (Number(x), Number(y)) => SameNumber(x, y)
    case (String(s), String(t)) => SameText(s, t)
    case (Array(xs), Array(ys)) => CompareItems(xs, ys)
    case (Object(ms), Object(ns)) => CompareMembers(ms, ns) && CompareMembers(ns, ms)
    case _ => false
  }

  predicate CompareItems(xs: seq<Value>, ys: seq<Value>)
    decreases ItemsSize(xs) + ItemsSize(ys), 0
  {
    if xs == [] || ys == [] then xs == [] && ys == []
    else Compare(xs[0], ys[0]) && CompareItems(xs[1..], ys[1..])
  }

  /** Every member of `ms`, looked up in `ns`, is there and compares equal. */
  predicate CompareMembers(ms: seq<Member>, ns: seq<Member>)
    decreases MembersSize(ms) + MembersSize(ns), 0
  {
    if ms == [] then true
    else
      var r := Lookup(ns, ms[0].key);
      r.Some? && Compare(ms[0].value, r.value) && CompareMembers(ms[1..], ns)
  }

  // ----- The comparison as it walks the nodes -----

  /** One child further: what it holds, where it leads, and what it decides about a lookup. */
  lemma LookupStep(s: Shape, t: Tree, k: nat, name: seq<byte>)
    requires Forms(s, t) && k < |s.subs|
    ensures |t.children| == |s.subs| && s.subs[k].item.next == NextOf(Heads(s.subs), k)
    ensures Lookup(MembersOf(t.children)[k..], name) ==
            if SameText(name, s.subs[k].item.content.key) then Some(ValueOf(t.children[k]))
            else Lookup(MembersOf(t.children)[k + 1..], name)
  {
    FormsChild(s, t, k);
    FormsStarts(s.subs[k], t.children[k]);
    OneValue(t.children, k);
    assert MembersOf(t.children)[k..][1..] == MembersOf(t.children)[k + 1..];
  }

  lemma LookupEnds(members: seq<Member>, k: nat, name: seq<byte>)
    requires k == |members|
    ensures Lookup(members[k..], name) == None
  {
  }

  /** `get_object_item`: walks the children to the first with that key. */
  method GetObjectItem(parent: Item?, name: seq<byte>, ghost s: Shape, ghost t: Tree)
    returns (current: Item?, ghost k: nat)
    requires parent != null ==> s.item == parent && Forms(s, t)
    ensures parent == null ==> current == null
    ensures parent != null && current == null ==> Lookup(MembersOf(t.children), name).None?
    ensures parent != null && current != null ==>
              && k < |s.subs| == |t.children| && current == s.subs[k].item
              && Lookup(MembersOf(t.children), name) == Some(ValueOf(t.children[k]))
  {
    hide Forms, Lookup, SameText, ValueOf, MembersOf;
    k := 0;
    if parent == null {
      return null, 0;
    }
    ghost var members := MembersOf(t.children);
    FormsStarts(s, t);
    current := parent.child;
    assert allocated(Nodes(s));
    assert members == members[0..];
    while current != null && !SameText(name, current.content.key)
      invariant Forms(s, t) && k <= |s.subs| && current == (if k < |s.subs| then s.subs[k].item else null)
      invariant Lookup(members, name) == Lookup(members[k..], name)
      decreases |s.subs| - k
    {
      LookupStep(s, t, k, name);
      current := current.next;
      k := k + 1;
    }
    if current != null {
      LookupStep(s, t, k, name);
    } else {
      LookupEnds(members, k, name);
    }
  }

  /** The values two nodes stand for when they are of one type. */
  lemma KindsAgree(t: Tree, u: Tree)
    ensures t.own.kind != u.own.kind ==> !Compare(ValueOf(t), ValueOf(u))
    ensures t.own.kind == u.own.kind ==>
              Compare(ValueOf(t), ValueOf(u)) ==
              match t.own.kind
              case NumberKind => SameNumber(t.own.number, u.own.number)
              case StringKind => SameText(t.own.text, u.own.text)
              case ArrayKind => CompareItems(ValuesOf(t.children), ValuesOf(u.children))
              case ObjectKind =>
                CompareMembers(MembersOf(t.children), MembersOf(u.children))
                && CompareMembers(MembersOf(u.children), MembersOf(t.children))
              case _ => true
  {
    hide ValuesOf, MembersOf, CompareItems, CompareMembers, SameText, SameNumber, Size;
  }

  /** A node equals itself, which is the comparison of the values when the trees share no node, and also when they do
      if members with the same key agree on either side. */
  ghost predicate Comparable(s: Shape, p: Shape, t: Tree, u: Tree) {
    Nodes(s) !! Nodes(p) || Consistent(ValueOf(t)) || Consistent(ValueOf(u))
  }

  lemma ChildComparable(s: Shape, p: Shape, t: Tree, u: Tree, i: nat, j: nat)
    requires Forms(s, t) && Forms(p, u) && i < |s.subs| && j < |p.subs|
    requires t.own.kind == u.own.kind && t.own.kind in {ArrayKind, ObjectKind}
    ensures |t.children| == |s.subs| && |u.children| == |p.subs|
    ensures Comparable(s, p, t, u) ==> Comparable(s.subs[i], p.subs[j], t.children[i], u.children[j])
  {
    FormsChild(s, t, i);
    FormsChild(p, u, j);
    hide Forms, Rooted, TreeOf, Nodes;
    ChildConsistent(t, i);
    ChildConsistent(u, j);
  }

  lemma ChildConsistent(t: Tree, k: nat)
    requires k < |t.children| && t.own.kind in {ArrayKind, ObjectKind}
    ensures Consistent(ValueOf(t)) ==> Consistent(ValueOf(t.children[k]))
  {
    hide MembersMeaning, MeaningOf, CString;
    OneValue(t.children, k);
  }

  lemma {:induction false} ChainIsOne(head: Item?, xs: seq<Item>, ys: seq<Item>, k: nat)
    requires Chain(head, xs) && Chain(head, ys) && k <= |xs|
    ensures k <= |ys| && xs[..k] == ys[..k] && (k == |xs| ==> xs == ys)
  {
    if k > 0 {
      ChainIsOne(head, xs, ys, k - 1);
      if k > 1 {
        assert Linked(xs, k - 2) && Linked(ys, k - 2);
        assert xs[k - 2] == xs[..k - 1][k - 2] && ys[k - 2] == ys[..k - 1][k - 2];
      }
      assert xs[k - 1] == ys[k - 1];
      assert xs[..k] == xs[..k - 1] + [xs[k - 1]] && ys[..k] == ys[..k - 1] + [ys[k - 1]];
    }
    if k == |xs| {
      assert k > 0 ==> Linked(xs, k - 1) && Linked(ys, k - 1);
      assert |ys| == k;
    }
  }

  /** A node forms one tree only. */
  lemma {:induction false} FormsOne(s: Shape, p: Shape, t: Tree, u: Tree)
    requires Forms(s, t) && Forms(p, u) && s.item == p.item
    ensures s == p && t == u
    decreases s
  {
    ChainIsOne(s.item.child, Heads(s.subs), Heads(p.subs), |s.subs|);
    forall i | 0 <= i < |s.subs| ensures s.subs[i] == p.subs[i] {
      FormsChild(s, t, i);
      FormsChild(p, u, i);
      FormsOne(s.subs[i], p.subs[i], t.children[i], u.children[i]);
    }
    assert s.subs == p.subs;
  }

  lemma SameNode(s: Shape, p: Shape, t: Tree, u: Tree)
    requires Forms(s, t) && Forms(p, u) && s.item == p.item && Comparable(s, p, t, u)
    ensures Compare(ValueOf(t), ValueOf(u))
  {
    hide Compare, Consistent, ValueOf, Forms, MeaningOf;
    FormsOne(s, p, t, u);
    assert s.item in Nodes(s) && s.item in Nodes(p);
    CompareMeans(ValueOf(t), ValueOf(u), iset{});
  }

  /** `cJSON_Compare`: exactly the comparison of the values, unless the trees share nodes and keys repeat at odds. */
  method CompareTrees(a: Item?, b: Item?, ghost s: Shape, ghost p: Shape, ghost t: Tree, ghost u: Tree)
    returns (same: bool)
    requires a != null ==> s.item == a && Forms(s, t)
    requires b != null ==> p.item == b && Forms(p, u)
    ensures a == null || b == null ==> !same
    ensures a != null && a == b ==> same
    ensures a != null && b != null && Comparable(s, p, t, u) ==> same == Compare(ValueOf(t), ValueOf(u))
    decreases if a == null || b == null then 0 else Weight(s) + Weight(p), 1
  {
    hide Forms, Compare, CompareItems, CompareMembers, ValueOf, ValuesOf, MembersOf, SameText, SameNumber, Consistent;
    if a == null || b == null {
      return false;
    }
    FormsStarts(s, t);
    FormsStarts(p, u);
    KindsAgree(t, u);
    if a.content.kind != b.content.kind {
      return false;
    }
    if a == b {
      if Comparable(s, p, t, u) {
        SameNode(s, p, t, u);
      }
      return true;
    }
    assert allocated(Nodes(s)) && allocated(Nodes(p));
    match a.content.kind {
      case NullKind => return true;
      case FalseKind => return true;
      case TrueKind => return true;
      case NumberKind => return SameNumber(a.content.number, b.content.number);
      case StringKind => return SameText(a.content.text, b.content.text);
      case ArrayKind => same := CompareElements(a, b, s, p, t, u);
      case ObjectKind =>
        same := CompareMembersOf(a, b, s, p, t, u);
        if same {
          same := CompareMembersOf(b, a, p, s, u, t);
        }
    }
  }

  lemma ItemsStep(xs: seq<Value>, ys: seq<Value>, i: nat)
    requires i < |xs| && i < |ys|
    ensures CompareItems(xs[i..], ys[i..]) == (Compare(xs[i], ys[i]) && CompareItems(xs[i + 1..], ys[i + 1..]))
  {
    assert xs[i..][1..] == xs[i + 1..] && ys[i..][1..] == ys[i + 1..];
  }

  lemma ItemsEnd(xs: seq<Value>, ys: seq<Value>, i: nat)
    requires (i == |xs| && i <= |ys|) || (i <= |xs| && i == |ys|)
    ensures CompareItems(xs[i..], ys[i..]) <==> i == |xs| == |ys|
  {
  }

  /** Both arrays are walked side by side. */
  method CompareElements(a: Item, b: Item, ghost s: Shape, ghost p: Shape, ghost t: Tree, ghost u: Tree)
    returns (same: bool)
    requires s.item == a && Forms(s, t) && p.item == b && Forms(p, u) && t.own.kind == u.own.kind == ArrayKind
    ensures Comparable(s, p, t, u) ==> same == CompareItems(ValuesOf(t.children), ValuesOf(u.children))
    decreases Weight(s) + Weight(p), 0
  {
    hide Heads, Forms, Compare, CompareItems, ValueOf, ValuesOf, Rooted, TreeOf, NodesOf, Inner, Weight, Comparable;
    ghost var xs, ys := ValuesOf(t.children), ValuesOf(u.children);
    FormsStarts(s, t);
    FormsStarts(p, u);
    var aElement, bElement := a.child, b.child;
    ghost var i := 0;
    assert xs[0..] == xs && ys[0..] == ys;
    while aElement != null && bElement != null
      invariant i <= |s.subs| == |xs| && i <= |p.subs| == |ys| && Forms(s, t) && Forms(p, u)
      invariant aElement == if i < |s.subs| then s.subs[i].item else null
      invariant bElement == if i < |p.subs| then p.subs[i].item else null
      invariant Comparable(s, p, t, u) ==> CompareItems(xs, ys) == CompareItems(xs[i..], ys[i..])
      decreases |s.subs| - i
    {
      FormsChild(s, t, i);
      FormsChild(p, u, i);
      OneValue(t.children, i);
      OneValue(u.children, i);
      ItemsStep(xs, ys, i);
      assert allocated(Nodes(s)) && allocated(Nodes(p));
      ChildComparable(s, p, t, u, i, i);
      var equal := CompareTrees(aElement, bElement, s.subs[i], p.subs[i], t.children[i], u.children[i]);
      if !equal {
        return false;
      }
      FormsChild(s, t, i);
      FormsChild(p, u, i);
      aElement, bElement := aElement.next, bElement.next;
      i := i + 1;
    }
    ItemsEnd(xs, ys, i);
    return aElement == bElement;
  }

  lemma MembersStep(ms: seq<Member>, ns: seq<Member>, i: nat)
    requires i < |ms|
    ensures CompareMembers(ms[i..], ns) ==
            var r := Lookup(ns, ms[i].key);
            r.Some? && Compare(ms[i].value, r.value) && CompareMembers(ms[i + 1..], ns)
  {
    assert ms[i..][1..] == ms[i + 1..];
  }

  lemma MembersEnd(ms: seq<Member>, ns: seq<Member>)
    ensures CompareMembers(ms[|ms|..], ns)
  {
  }

  /** One direction of the object comparison: every member is looked up on the other side. */
  method CompareMembersOf(a: Item, b: Item, ghost s: Shape, ghost p: Shape, ghost t: Tree, ghost u: Tree)
    returns (same: bool)
    requires s.item == a && Forms(s, t) && p.item == b && Forms(p, u) && t.own.kind == u.own.kind == ObjectKind
    ensures Comparable(s, p, t, u) ==> same == CompareMembers(MembersOf(t.children), MembersOf(u.children))
    decreases Weight(s) + Weight(p), 0
  {
    hide Heads, Forms, Compare, CompareMembers, Lookup, ValueOf, MembersOf, Rooted, TreeOf, NodesOf, Inner, Weight, Comparable;
    ghost var ms, ns := MembersOf(t.children), MembersOf(u.children);
    FormsStarts(s, t);
    var element := a.child;
    ghost var i := 0;
    assert ms[0..] == ms;
    while element != null
      invariant i <= |s.subs| == |ms| && Forms(s, t) && Forms(p, u)
      invariant element == if i < |s.subs| then s.subs[i].item else null
      invariant Comparable(s, p, t, u) ==> CompareMembers(ms, ns) == CompareMembers(ms[i..], ns)
      decreases |s.subs| - i
    {
      FormsChild(s, t, i);
      FormsStarts(s.subs[i], t.children[i]);
      OneValue(t.children, i);
      MembersStep(ms, ns, i);
      assert allocated(Nodes(s)) && allocated(Nodes(p));
      var partner, k := GetObjectItem(b, element.content.key, p, u);
      if partner == null {
        return false;
      }
      assert Forms(s, t) && Forms(p, u);
      FormsChild(s, t, i);
      FormsChild(p, u, k);
      assert allocated(Nodes(s)) && allocated(Nodes(p));
      ChildComparable(s, p, t, u, i, k);
      var equal := CompareTrees(element, partner, s.subs[i], p.subs[k], t.children[i], u.children[k]);
      if !equal {
        return false;
      }
      FormsChild(s, t, i);
      element := element.next;
      i := i + 1;
    }
    MembersEnd(ms, ns);
    return true;
  }

  // ----- What a tree means: objects are maps from keys to meanings -----

  datatype Meaning =
    | MNull
    | MFalse
    | MTrue
    | MNumber(number: real)
    | MString(text: seq<byte>)
    | MArray(items: seq<Meaning>)
    | MObject(members: map<seq<byte>, Meaning>)

  function MeaningOf(v: Value): Meaning
    decreases v, 1
  {
    match v
    case Null => MNull
    case False => MFalse
    case True => MTrue
    case Number(r) => MNumber(r)
    case String(s) => MString(CString(s))
    case Array(items) => MArray(ItemsMeaning(items))
    case Object(members) => MObject(MembersMeaning(members))
  }

  function ItemsMeaning(items: seq<Value>): seq<Meaning>
    decreases items, 0
  {
    if items == [] then [] else [MeaningOf(items[0])] + ItemsMeaning(items[1..])
  }

  /** Where a key occurs more than once, the first member counts. */
  function MembersMeaning(members: seq<Member>): map<seq<byte>, Meaning>
    decreases members, 0
  {
    if members == [] then map[]
    else MembersMeaning(members[1..])[CString(members[0].key) := MeaningOf(members[0].value)]
  }

  predicate Maps(m: map<seq<byte>, Meaning>, key: seq<byte>, meaning: Meaning) { key in m && m[key] == meaning }

  /** Members that share a key, anywhere in the tree, mean the same. */
  ghost predicate Consistent(v: Value) {
    match v
    case Array(items) => forall i :: 0 <= i < |items| ==> Consistent(items[i])
    case Object(members) =>
      forall i :: 0 <= i < |members| ==>
        Consistent(members[i].value) && Maps(MembersMeaning(members), CString(members[i].key), MeaningOf(members[i].value))
    case _ => true
  }

  /** No two of the numbers are as close as the comparison tolerates. */
  ghost predicate Spaced(numbers: iset<real>) {
    forall x, y :: x in numbers && y in numbers && SameNumber(x, y) ==> x == y
  }

  /** All numbers of the tree are among these. */
  ghost predicate Drawn(v: Value, numbers: iset<real>) {
    match v
    case Number(r) => r in numbers
    case Array(items) => forall i :: 0 <= i < |items| ==> Drawn(items[i], numbers)
    case Object(members) => forall i :: 0 <= i < |members| ==> Drawn(members[i].value, numbers)
    case _ => true
  }

  lemma {:induction false} LookupMeaning(members: seq<Member>, key: seq<byte>)
    ensures Lookup(members, key).Some? <==> CString(key) in MembersMeaning(members)
    ensures Lookup(members, key).Some? ==>
              MembersMeaning(members)[CString(key)] == MeaningOf(Lookup(members, key).value)
  {
    hide MeaningOf, CString;
    if members != [] {
      LookupMeaning(members[1..], key);
    }
  }

  /** The member a lookup finds. */
  lemma {:induction false} Found(members: seq<Member>, key: seq<byte>) returns (i: nat)
    requires Lookup(members, key).Some?
    ensures i < |members| && SameText(members[i].key, key) && members[i].value == Lookup(members, key).value
  {
    hide SameText;
    if SameText(members[0].key, key) {
      i := 0;
    } else {
      i := Found(members[1..], key);
      i := i + 1;
    }
  }

  lemma {:induction false} HasKey(members: seq<Member>, i: nat)
    requires i < |members|
    ensures Lookup(members, members[i].key).Some?
  {
    if i > 0 {
      assert members[1..][i - 1] == members[i];
      HasKey(members[1..], i - 1);
    }
  }

  /** A key some member stands for. */
  lemma {:induction false} KeyOf(members: seq<Member>, key: seq<byte>) returns (i: nat)
    requires key in MembersMeaning(members)
    ensures i < |members| && CString(members[i].key) == key
  {
    hide MeaningOf, CString;
    if CString(members[0].key) == key {
      i := 0;
    } else {
      i := KeyOf(members[1..], key);
      i := i + 1;
    }
  }

  /** Two trees that mean the same, in neither of which members with the same key differ, compare equal, whatever their
      numbers. Conversely trees compare equal only then, as far as their numbers are not too close to be told apart. */
  lemma {:induction false} CompareMeans(a: Value, b: Value, numbers: iset<real>)
    requires Spaced(numbers)
    ensures MeaningOf(a) == MeaningOf(b) && Consistent(a) && Consistent(b) ==> Compare(a, b)
    ensures Drawn(a, numbers) && Drawn(b, numbers) && Compare(a, b) ==>
              MeaningOf(a) == MeaningOf(b) && Consistent(a) && Consistent(b)
    decreases Size(a) + Size(b), 1
  {
    match (a, b)
    case (Array(xs), Array(ys)) =>
      hide Drawn;
      CompareItemsMeans(xs, ys, numbers);
    case (Object(ms), Object(ns)) =>
      hide Drawn, Consistent;
      CompareMembersMeans(ms, ns, numbers);
      CompareMembersMeans(ns, ms, numbers);
      AgreementMeans(ms, ns);
    case _ =>
  }

  lemma {:induction false} CompareItemsMeans(xs: seq<Value>, ys: seq<Value>, numbers: iset<real>)
    requires Spaced(numbers)
    ensures ItemsMeaning(xs) == ItemsMeaning(ys) && Consistent(Array(xs)) && Consistent(Array(ys)) ==>
              CompareItems(xs, ys)
    ensures Drawn(Array(xs), numbers) && Drawn(Array(ys), numbers) && CompareItems(xs, ys) ==>
              ItemsMeaning(xs) == ItemsMeaning(ys) && Consistent(Array(xs)) && Consistent(Array(ys))
    decreases ItemsSize(xs) + ItemsSize(ys), 0
  {
    DrawnItems(xs, numbers);
    DrawnItems(ys, numbers);
    ConsistentItems(xs);
    ConsistentItems(ys);
    hide Drawn, Consistent, MeaningOf, Compare, Spaced;
    if xs != [] && ys != [] {
      CompareMeans(xs[0], ys[0], numbers);
      CompareItemsMeans(xs[1..], ys[1..], numbers);
      ConsMeaning(xs, ys);
    }
  }

  lemma DrawnItems(xs: seq<Value>, numbers: iset<real>)
    ensures Drawn(Array(xs), numbers) && xs != [] ==> Drawn(xs[0], numbers) && Drawn(Array(xs[1..]), numbers)
  {
  }

  lemma ConsistentItems(xs: seq<Value>)
    ensures xs != [] ==> (Consistent(Array(xs)) <==> Consistent(xs[0]) && Consistent(Array(xs[1..])))
    ensures Consistent(Array([]))
  {
    if xs != [] {
      var rest := xs[1..];
      assert forall i :: 0 <= i < |rest| ==> rest[i] == xs[i + 1];
      assert forall i :: 0 < i < |xs| ==> xs[i] == rest[i - 1];
    }
  }

  lemma ConsMeaning(xs: seq<Value>, ys: seq<Value>)
    requires xs != [] && ys != []
    ensures ItemsMeaning(xs) == ItemsMeaning(ys) <==>
      MeaningOf(xs[0]) == MeaningOf(ys[0]) && ItemsMeaning(xs[1..]) == ItemsMeaning(ys[1..])
  {
    hide MeaningOf;
    var p, q := ItemsMeaning(xs), ItemsMeaning(ys);
    assert p[0] == MeaningOf(xs[0]) && q[0] == MeaningOf(ys[0]);
    assert p[1..] == ItemsMeaning(xs[1..]) && q[1..] == ItemsMeaning(ys[1..]);
  }

  /** `m` is found in `ns`, with the same meaning, and both are consistent. */
  ghost predicate Agrees(m: Member, ns: seq<Member>) {
    var r := Lookup(ns, m.key);
    r.Some? && MeaningOf(m.value) == MeaningOf(r.value) && Consistent(m.value) && Consistent(r.value)
  }

  lemma DrawnMembers(ms: seq<Member>, numbers: iset<real>)
    ensures Drawn(Object(ms), numbers) && ms != [] ==>
              Drawn(ms[0].value, numbers) && Drawn(Object(ms[1..]), numbers)
  {
  }

  lemma DrawnLookup(ns: seq<Member>, key: seq<byte>, numbers: iset<real>)
    requires Drawn(Object(ns), numbers) && Lookup(ns, key).Some?
    ensures Drawn(Lookup(ns, key).value, numbers)
  {
    var i := Found(ns, key);
  }

  lemma AllAgree(ms: seq<Member>, ns: seq<Member>)
    requires ms != []
    ensures (forall i :: 0 <= i < |ms| ==> Agrees(ms[i], ns)) <==>
              Agrees(ms[0], ns) && forall i :: 0 <= i < |ms[1..]| ==> Agrees(ms[1..][i], ns)
  {
    hide Agrees;
    assert forall i :: 0 <= i < |ms[1..]| ==> ms[1..][i] == ms[i + 1];
    assert forall i :: 0 < i < |ms| ==> ms[i] == ms[1..][i - 1];
  }

  lemma {:induction false} CompareMembersMeans(ms: seq<Member>, ns: seq<Member>, numbers: iset<real>)
    requires Spaced(numbers)
    ensures (forall i :: 0 <= i < |ms| ==> Agrees(ms[i], ns)) ==> CompareMembers(ms, ns)
    ensures Drawn(Object(ms), numbers) && Drawn(Object(ns), numbers) && CompareMembers(ms, ns) ==>
              forall i :: 0 <= i < |ms| ==> Agrees(ms[i], ns)
    decreases MembersSize(ms) + MembersSize(ns), 0
  {
    hide Drawn, Consistent, MeaningOf, Compare, Spaced;
    if ms != [] {
      DrawnMembers(ms, numbers);
      var r := Lookup(ns, ms[0].key);
      if r.Some? {
        if Drawn(Object(ns), numbers) {
          DrawnLookup(ns, ms[0].key, numbers);
        }
        CompareMeans(ms[0].value, r.value, numbers);
      }
      CompareMembersMeans(ms[1..], ns, numbers);
      AllAgree(ms, ns);
    }
  }

  lemma AgreementMeans(ms: seq<Member>, ns: seq<Member>)
    ensures (forall i :: 0 <= i < |ms| ==> Agrees(ms[i], ns)) && (forall j :: 0 <= j < |ns| ==> Agrees(ns[j], ms)) <==>
      MembersMeaning(ms) == MembersMeaning(ns) && Consistent(Object(ms)) && Consistent(Object(ns))
  {
    hide Consistent, MeaningOf, Lookup, MembersMeaning;
    if (forall i :: 0 <= i < |ms| ==> Agrees(ms[i], ns)) && (forall j :: 0 <= j < |ns| ==> Agrees(ns[j], ms)) {
      AgreementIsConsistent(ms, ns);
      AgreementIsConsistent(ns, ms);
      AgreementCovers(ms, ns);
      AgreementCovers(ns, ms);
      assert MembersMeaning(ms) == MembersMeaning(ns);
    }
    if MembersMeaning(ms) == MembersMeaning(ns) && Consistent(Object(ms)) && Consistent(Object(ns)) {
      SameMeaningAgrees(ms, ns);
      SameMeaningAgrees(ns, ms);
    }
  }

  lemma {:induction false} LookupReads(members: seq<Member>, key: seq<byte>, other: seq<byte>)
    requires SameText(key, other)
    ensures Lookup(members, key) == Lookup(members, other)
  {
    if members != [] {
      LookupReads(members[1..], key, other);
    }
  }

  lemma AgreementIsConsistent(ms: seq<Member>, ns: seq<Member>)
    requires forall i :: 0 <= i < |ms| ==> Agrees(ms[i], ns)
    ensures Consistent(Object(ms))
  {
    hide MeaningOf, Lookup, MembersMeaning, CString;
    forall i | 0 <= i < |ms|
      ensures Consistent(ms[i].value) && Maps(MembersMeaning(ms), CString(ms[i].key), MeaningOf(ms[i].value))
    {
      assert Agrees(ms[i], ns);
      HasKey(ms, i);
      LookupMeaning(ms, ms[i].key);
      var f := Found(ms, ms[i].key);
      LookupReads(ns, ms[i].key, ms[f].key);
      assert Agrees(ms[f], ns);
    }
  }

  lemma AgreementCovers(ms: seq<Member>, ns: seq<Member>)
    requires forall i :: 0 <= i < |ms| ==> Agrees(ms[i], ns)
    ensures forall key :: key in MembersMeaning(ms) ==> Maps(MembersMeaning(ns), key, MembersMeaning(ms)[key])
  {
    hide MeaningOf, Lookup, MembersMeaning, Consistent, CString;
    forall key | key in MembersMeaning(ms)
      ensures Maps(MembersMeaning(ns), key, MembersMeaning(ms)[key])
    {
      var k := KeyOf(ms, key);
      LookupMeaning(ms, ms[k].key);
      var f := Found(ms, ms[k].key);
      assert Agrees(ms[f], ns);
      LookupMeaning(ns, ms[f].key);
    }
  }

  lemma SameMeaningAgrees(ms: seq<Member>, ns: seq<Member>)
    requires MembersMeaning(ms) == MembersMeaning(ns) && Consistent(Object(ms)) && Consistent(Object(ns))
    ensures forall i :: 0 <= i < |ms| ==> Agrees(ms[i], ns)
  {
    hide MeaningOf, Lookup, MembersMeaning, CString;
    forall i | 0 <= i < |ms|
      ensures Agrees(ms[i], ns)
    {
      assert Maps(MembersMeaning(ms), CString(ms[i].key), MeaningOf(ms[i].value));
      LookupMeaning(ns, ms[i].key);
      var f := Found(ns, ms[i].key);
      assert Consistent(ns[f].value);
    }
  }

  // ----- What follows -----

  /** All numbers are integers. */
  ghost const INTEGERS: iset<real> := iset r: real | r == r.Floor as real

  lemma IntegersAreSpaced()
    ensures Spaced(INTEGERS)
  {
    forall x: real, y: real | x == x.Floor as real && y == y.Floor as real && SameNumber(x, y)
      ensures x == y
    {
      assert PRECISION < 1.0;
      assert x.Floor - y.Floor >= 1 || y.Floor - x.Floor >= 1 || x.Floor == y.Floor;
    }
  }

  /** No object has two members whose keys read the same. */
  ghost predicate DistinctKeys(v: Value) {
    match v
    case Array(items) => forall i :: 0 <= i < |items| ==> DistinctKeys(items[i])
    case Object(members) =>
      (forall i :: 0 <= i < |members| ==> DistinctKeys(members[i].value))
      && (forall i, j :: 0 <= i < j < |members| ==> !SameText(members[i].key, members[j].key))
    case _ => true
  }

  lemma {:induction false} DistinctIsConsistent(v: Value)
    requires DistinctKeys(v)
    ensures Consistent(v)
    decreases v
  {
    hide MeaningOf, Lookup, MembersMeaning, CString;
    match v
    case Array(items) =>
      forall i | 0 <= i < |items| ensures Consistent(items[i]) { DistinctIsConsistent(items[i]); }
    case Object(members) =>
      forall i | 0 <= i < |members|
        ensures Consistent(members[i].value)
        ensures Maps(MembersMeaning(members), CString(members[i].key), MeaningOf(members[i].value))
      {
        DistinctIsConsistent(members[i].value);
        HasKey(members, i);
        LookupMeaning(members, members[i].key);
        var f := Found(members, members[i].key);
      }
    case _ =>
  }

  /** With distinct keys, comparing equal is having the same meaning. */
  lemma DistinctCompareMeans(a: Value, b: Value, numbers: iset<real>)
    requires Spaced(numbers) && Drawn(a, numbers) && Drawn(b, numbers) && DistinctKeys(a) && DistinctKeys(b)
    ensures Compare(a, b) <==> MeaningOf(a) == MeaningOf(b)
  {
    hide Drawn, Spaced, DistinctKeys, Consistent, Compare, MeaningOf;
    CompareMeans(a, b, numbers);
    DistinctIsConsistent(a);
    DistinctIsConsistent(b);
  }

  // ----- Symmetry and transitivity -----

  /** Comparison is symmetric on all trees, whatever their keys and numbers. */
  lemma {:induction false} CompareIsSymmetric(a: Value, b: Value)
    ensures Compare(a, b) <==> Compare(b, a)
    decreases a, 1
  {
    match (a, b)
    case (Array(xs), Array(ys)) => ItemsAreSymmetric(xs, ys);
    case _ =>
  }

  lemma {:induction false} ItemsAreSymmetric(xs: seq<Value>, ys: seq<Value>)
    ensures CompareItems(xs, ys) <==> CompareItems(ys, xs)
    decreases xs, 0
  {
    hide Compare;
    if xs != [] && ys != [] {
      CompareIsSymmetric(xs[0], ys[0]);
      ItemsAreSymmetric(xs[1..], ys[1..]);
    }
  }

  /** Closeness is transitive on these numbers. */
  ghost predicate Chained(numbers: iset<real>) {
    forall x, y, z :: x in numbers && y in numbers && z in numbers && SameNumber(x, y) && SameNumber(y, z) ==> SameNumber(x, z)
  }

  ghost predicate Transitive(numbers: iset<real>) {
    forall a, b, c :: Drawn(a, numbers) && Drawn(b, numbers) && Drawn(c, numbers) && Compare(a, b) && Compare(b, c) ==> Compare(a, c)
  }

  /** Comparison is transitive on the trees over some numbers exactly when closeness is on the numbers: repeated keys
      never get in the way. */
  lemma CompareIsTransitive(numbers: iset<real>)
    ensures Chained(numbers) <==> Transitive(numbers)
  {
    hide Chained;
    if Chained(numbers) {
      hide Compare, Drawn;
      forall a, b, c | Drawn(a, numbers) && Drawn(b, numbers) && Drawn(c, numbers) && Compare(a, b) && Compare(b, c)
        ensures Compare(a, c)
      {
        CompareChains(a, b, c, numbers);
      }
    } else {
      var x, y, z := Unchained(numbers);
      assert Compare(Number(x), Number(y)) && Compare(Number(y), Number(z)) && !Compare(Number(x), Number(z));
    }
  }

  lemma Unchained(numbers: iset<real>) returns (x: real, y: real, z: real)
    requires !Chained(numbers)
    ensures x in numbers && y in numbers && z in numbers && SameNumber(x, y) && SameNumber(y, z) && !SameNumber(x, z)
  {
    x, y, z :| x in numbers && y in numbers && z in numbers && SameNumber(x, y) && SameNumber(y, z) && !SameNumber(x, z);
  }

  lemma {:induction false} CompareChains(a: Value, b: Value, c: Value, numbers: iset<real>)
    requires Chained(numbers) && Drawn(a, numbers) && Drawn(b, numbers) && Drawn(c, numbers)
    requires Compare(a, b) && Compare(b, c)
    ensures Compare(a, c)
    decreases Size(a) + Size(b) + Size(c), 1
  {
    match (a, b, c)
    case (Array(xs), Array(ys), Array(zs)) =>
      hide Drawn;
      ItemsChain(xs, ys, zs, numbers);
    case (Object(ms), Object(ns), Object(ps)) =>
      hide Drawn;
      MembersChain(ms, ns, ps, numbers);
      MembersChain(ps, ns, ms, numbers);
    case _ =>
  }

  lemma {:induction false} ItemsChain(xs: seq<Value>, ys: seq<Value>, zs: seq<Value>, numbers: iset<real>)
    requires Chained(numbers) && Drawn(Array(xs), numbers) && Drawn(Array(ys), numbers) && Drawn(Array(zs), numbers)
    requires CompareItems(xs, ys) && CompareItems(ys, zs)
    ensures CompareItems(xs, zs)
    decreases ItemsSize(xs) + ItemsSize(ys) + ItemsSize(zs), 0
  {
    DrawnItems(xs, numbers);
    DrawnItems(ys, numbers);
    DrawnItems(zs, numbers);
    hide Drawn, Chained, Compare;
    if xs != [] {
      CompareChains(xs[0], ys[0], zs[0], numbers);
      ItemsChain(xs[1..], ys[1..], zs[1..], numbers);
    }
  }

  /** What a lookup finds in one list it finds in every list the first is compared with. */
  lemma {:induction false} LookupChains(ns: seq<Member>, ps: seq<Member>, key: seq<byte>)
    requires CompareMembers(ns, ps) && Lookup(ns, key).Some?
    ensures Lookup(ps, key).Some? && Compare(Lookup(ns, key).value, Lookup(ps, key).value)
  {
    hide Compare, SameText;
    if SameText(ns[0].key, key) {
      LookupReads(ps, ns[0].key, key);
    } else {
      LookupChains(ns[1..], ps, key);
    }
  }

  lemma {:induction false} MembersChain(ms: seq<Member>, ns: seq<Member>, ps: seq<Member>, numbers: iset<real>)
    requires Chained(numbers) && Drawn(Object(ms), numbers) && Drawn(Object(ns), numbers) && Drawn(Object(ps), numbers)
    requires CompareMembers(ms, ns) && CompareMembers(ns, ps)
    ensures CompareMembers(ms, ps)
    decreases MembersSize(ms) + MembersSize(ns) + MembersSize(ps), 0
  {
    DrawnMembers(ms, numbers);
    hide Drawn, Chained, Compare;
    if ms != [] {
      var key := ms[0].key;
      LookupChains(ns, ps, key);
      DrawnLookup(ns, key, numbers);
      DrawnLookup(ps, key, numbers);
      CompareChains(ms[0].value, Lookup(ns, key).value, Lookup(ps, key).value, numbers);
      MembersChain(ms[1..], ns, ps, numbers);
    }
  }

  lemma SpacedAreChained(numbers: iset<real>)
    requires Spaced(numbers)
    ensures Chained(numbers)
  {
  }

  // ----- Copies -----

  lemma CStringTwice(t: seq<byte>)
    ensures CString(CString(t)) == CString(t)
  {
    CStringWhole(t);
    CStringWhole(CString(t));
  }

  /** Cutting texts and keys at their first NUL changes neither meaning nor consistency nor the numbers. */
  lemma {:induction false} CutMeans(v: Value, numbers: iset<real>)
    ensures MeaningOf(Cut(v)) == MeaningOf(v) && (Consistent(Cut(v)) <==> Consistent(v))
    ensures Drawn(Cut(v), numbers) <==> Drawn(v, numbers)
    decreases v, 1
  {
    hide ItemsMeaning, MembersMeaning, CutItems, CutMembers, CString;
    match v
    case String(s) => CStringTwice(s);
    case Array(items) => CutItemsMeans(items, numbers);
    case Object(members) => CutMembersMeans(members, numbers);
    case _ =>
  }

  lemma {:induction false} CutItemsMeans(items: seq<Value>, numbers: iset<real>)
    ensures |CutItems(items)| == |items| && ItemsMeaning(CutItems(items)) == ItemsMeaning(items)
    ensures forall i :: 0 <= i < |items| ==>
              && (Consistent(CutItems(items)[i]) <==> Consistent(items[i]))
              && (Drawn(CutItems(items)[i], numbers) <==> Drawn(items[i], numbers))
    decreases items, 0
  {
    hide MeaningOf, Consistent, Drawn, Cut;
    if items != [] {
      CutMeans(items[0], numbers);
      CutItemsMeans(items[1..], numbers);
      assert CutItems(items)[1..] == CutItems(items[1..]);
      assert forall i :: 0 < i < |items| ==> items[i] == items[1..][i - 1];
      assert forall i :: 0 < i < |items| ==> CutItems(items)[i] == CutItems(items[1..])[i - 1];
    }
  }

  ghost predicate CutMember(m: Member, n: Member, numbers: iset<real>) {
    && m.key == CString(n.key) && CString(m.key) == CString(n.key) && MeaningOf(m.value) == MeaningOf(n.value)
    && (Consistent(m.value) <==> Consistent(n.value)) && (Drawn(m.value, numbers) <==> Drawn(n.value, numbers))
  }

  lemma {:induction false} CutMembersMeans(members: seq<Member>, numbers: iset<real>)
    ensures |CutMembers(members)| == |members| && MembersMeaning(CutMembers(members)) == MembersMeaning(members)
    ensures forall i :: 0 <= i < |members| ==> CutMember(CutMembers(members)[i], members[i], numbers)
    decreases members, 0
  {
    hide MeaningOf, Consistent, Drawn, Cut, CString;
    if members != [] {
      CutMeans(members[0].value, numbers);
      CStringTwice(members[0].key);
      CutMembersMeans(members[1..], numbers);
      assert CutMember(CutMembers(members)[0], members[0], numbers);
      hide CutMember;
      assert CutMembers(members)[1..] == CutMembers(members[1..]);
      assert forall i :: 0 < i < |members| ==> members[i] == members[1..][i - 1];
      assert forall i :: 0 < i < |members| ==> CutMembers(members)[i] == CutMembers(members[1..])[i - 1];
    }
  }

  /** A tree compares equal to its copy when members with the same key agree, which they do when keys are distinct;
      and, its numbers being spaced, only then. */
  lemma CopyComparesEqual(t: Tree, numbers: iset<real>)
    requires Spaced(numbers)
    ensures var same := Compare(ValueOf(t), ValueOf(Copied(t)));
            && (Consistent(ValueOf(t)) || DistinctKeys(ValueOf(t)) ==> same)
            && (Drawn(ValueOf(t), numbers) && same ==> Consistent(ValueOf(t)))
  {
    hide Drawn, Spaced, DistinctKeys, Consistent, Compare, MeaningOf, ValueOf, Cut;
    var v := ValueOf(t);
    CopyIsCut(t);
    CutMeans(v, numbers);
    CompareMeans(v, Cut(v), numbers);
    if DistinctKeys(v) {
      DistinctIsConsistent(v);
    }
  }

  /** Copying and comparing on the nodes: `cJSON_Compare(item, cJSON_Duplicate(item, true))`. */
  method CompareWithCopy(item: Item, ghost s: Shape, ghost t: Tree, ghost numbers: iset<real>) returns (same: bool)
    requires s.item == item && Forms(s, t) && Spaced(numbers)
    ensures Consistent(ValueOf(t)) || DistinctKeys(ValueOf(t)) ==> same
    ensures Drawn(ValueOf(t), numbers) && same ==> Consistent(ValueOf(t))
  {
    hide Forms, Drawn, Spaced, DistinctKeys, Consistent, Compare, ValueOf, Copied;
    assert allocated(Nodes(s));
    var copy, p := Duplicate(item, true, s, t);
    assert Forms(s, t);
    same := CompareTrees(item, copy, s, p, t, Copied(t));
    CopyComparesEqual(t, numbers);
  }

  /** With a repeated key a tree need not equal its copy; keys that differ only behind a NUL are one key;
      the numbers up to twice the tolerance are already such that equality is not transitive. */
  lemma CompareLimits(key: seq<byte>, x: byte, y: byte)
    ensures var v := Object([Member(key + [NUL, x], Null), Member(key + [NUL, y], True)]); !Compare(v, Cut(v))
    ensures Compare(Number(0.0), Number(PRECISION)) && Compare(Number(PRECISION), Number(2.0 * PRECISION))
    ensures !Compare(Number(0.0), Number(2.0 * PRECISION))
    ensures Compare(Number(1.0), Number(1.0000000000000001)) && !Compare(Number(1.0), Number(1.00000000000000011))
  {
    var first, second := key + [NUL, x], key + [NUL, y];
    var v := Object([Member(first, Null), Member(second, True)]);
    SameUpToNul(key, x, y);
    CStringTwice(first);
    assert v.members[1..] == [Member(second, True)];
    var cut := CutMembers(v.members);
    assert Cut(Null) == Null && cut[0] == Member(CString(first), Null);
    assert Lookup(cut, second) == Some(Null);
    assert !CompareMembers(v.members[1..], cut);
  }

  lemma {:induction false} SameUpToNul(key: seq<byte>, x: byte, y: byte)
    ensures SameText(key + [NUL, x], key + [NUL, y])
  {
    if key != [] {
      assert (key + [NUL, x])[1..] == key[1..] + [NUL, x] && (key + [NUL, y])[1..] == key[1..] + [NUL, y];
      SameUpToNul(key[1..], x, y);
    }
  }
}
