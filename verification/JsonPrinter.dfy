/**
 The printer of firmware/src/cJSON.c: the `printbuffer` methods, writing bytes into a fixed
 or a growing buffer, proved to produce the text of JsonValue and to succeed exactly when
 the text and two more bytes fit.
 */
module JsonPrinter {
  import opened Bytes
  import opened JsonValue
  import opened JsonList
  import opened JsonTree

  // ----- What nodes say: texts and keys are read up to their first NUL -----

  function Said(t: Tree): Value { Cut(ValueOf(t)) }

  function ItemsSaid(ts: seq<Tree>): seq<Value> {
    CutItems(ValuesOf(ts))
  }

  function MemberSaid(t: Tree): Member { Member(CString(t.own.key), Said(t)) }

  function MembersSaid(ts: seq<Tree>): seq<Member> {
    CutMembers(MembersOf(ts))
  }

  /** All numbers are integers of at most 15 digits. */
  ghost predicate PlainNumbers(v: Value) {
    match v
    case Number(r) => PlainInteger(r)
    case Array(items) => forall i :: 0 <= i < |items| ==> PlainNumbers(items[i])
    case Object(members) => forall i :: 0 <= i < |members| ==> PlainNumbers(members[i].value)
    case _ => true
  }

  /** Nothing else is asked of a tree: as texts and keys are read, no NUL is in them. */
  lemma {:induction false} CutIsPrintable(v: Value)
    ensures PlainNumbers(v) <==> Printable(Cut(v))
    decreases v, 1
  {
    hide CString, CutItems, CutMembers;
    match v
    case String(s) => CStringWhole(s);
    case Array(items) => CutItemsPrintable(items);
    case Object(members) => CutMembersPrintable(members);
    case _ =>
  }

  lemma {:induction false} CutItemsPrintable(items: seq<Value>)
    ensures |CutItems(items)| == |items|
    ensures forall i :: 0 <= i < |items| ==> (PlainNumbers(items[i]) <==> Printable(CutItems(items)[i]))
    decreases items, 0
  {
    hide PlainNumbers, Printable, Cut;
    if items != [] {
      CutIsPrintable(items[0]);
      CutItemsPrintable(items[1..]);
      assert forall i :: 0 < i < |items| ==> items[i] == items[1..][i - 1];
      assert forall i :: 0 < i < |items| ==> CutItems(items)[i] == CutItems(items[1..])[i - 1];
    }
  }

  lemma {:induction false} CutMembersPrintable(members: seq<Member>)
    ensures |CutMembers(members)| == |members|
    ensures forall i :: 0 <= i < |members| ==>
              NulFree(CutMembers(members)[i].key) && (PlainNumbers(members[i].value) <==> Printable(CutMembers(members)[i].value))
    decreases members, 0
  {
    hide PlainNumbers, Printable, Cut, CString, NulFree;
    if members != [] {
      CutIsPrintable(members[0].value);
      CStringWhole(members[0].key);
      CutMembersPrintable(members[1..]);
      assert forall i :: 0 < i < |members| ==> members[i] == members[1..][i - 1];
      assert forall i :: 0 < i < |members| ==> CutMembers(members)[i] == CutMembers(members[1..])[i - 1];
    }
  }

  lemma PlainIsPrintable(t: Tree)
    requires PlainNumbers(ValueOf(t))
    ensures Printable(Said(t))
  {
    CutIsPrintable(ValueOf(t));
  }

  lemma KindSaid(t: Tree)
    ensures Said(t) ==
      match t.own.kind
      case NullKind => Null
      case FalseKind => False
      case TrueKind => True
      case NumberKind => Number(t.own.number)
      case StringKind => String(CString(t.own.text))
      case ArrayKind => Array(ItemsSaid(t.children))
      case ObjectKind => Object(MembersSaid(t.children))
  {
    hide CutItems, CutMembers, ValuesOf, MembersOf, CString;
  }

  lemma NumberPrintable(r: real)
    requires Printable(Number(r))
    ensures PlainInteger(r)
  {
  }

  lemma StringPrintable(t: seq<byte>)
    requires Printable(String(CString(t)))
    ensures NulFree(CString(t))
  {
  }

  lemma {:induction false} OneSaid(ts: seq<Tree>, k: nat)
    ensures |ItemsSaid(ts)| == |MembersSaid(ts)| == |ts|
    ensures k < |ts| ==> ItemsSaid(ts)[k] == Said(ts[k]) && MembersSaid(ts)[k] == MemberSaid(ts[k])
  {
    hide Cut, ValueOf, CString;
    if ts != [] {
      assert ValuesOf(ts)[1..] == ValuesOf(ts[1..]) && MembersOf(ts)[1..] == MembersOf(ts[1..]);
      OneSaid(ts[1..], if k > 0 then k - 1 else 0);
    }
  }

  lemma ChildSaid(t: Tree, k: nat)
    requires k < |t.children| && t.own.kind in {ArrayKind, ObjectKind} && Printable(Said(t))
    ensures Printable(Said(t.children[k]))
    ensures |ItemsSaid(t.children)| == |MembersSaid(t.children)| == |t.children|
    ensures ItemsSaid(t.children)[k] == Said(t.children[k]) && MembersSaid(t.children)[k] == MemberSaid(t.children[k])
  {
    hide Said, ItemsSaid, MembersSaid;
    KindSaid(t);
    OneSaid(t.children, k);
  }

  // ----- The print buffer -----

  class PrintBuffer {
    var buffer: array<byte>
    var offset: nat
    var depth: nat
    const noalloc: bool
    const format: bool

    constructor (buffer: array<byte>, noalloc: bool, format: bool)
      ensures this.buffer == buffer && this.noalloc == noalloc && this.format == format
      ensures offset == 0 && depth == 0
    {
      this.buffer, this.noalloc, this.format := buffer, noalloc, format;
      offset, depth := 0, 0;
    }

    /** The most bytes the buffer can ever have. */
    function Capacity(): nat
      reads this
    {
      if noalloc then buffer.Length else INT_MAX
    }

    /** What has been written is `prefix`, and the next byte goes right after it. */
    ghost predicate Written(prefix: seq<byte>)
      reads this`buffer, this`offset, buffer
    {
      && buffer.Length <= INT_MAX
      && offset == |prefix| && (offset < buffer.Length || offset == buffer.Length == 0)
      && buffer[..offset] == prefix
    }

    /** After `prefix` stands `t` as a C string, and the offset is somewhere inside it. */
    ghost predicate Ended(prefix: seq<byte>, t: seq<byte>)
      reads this`buffer, this`offset, buffer
    {
      && |prefix| + |t| < buffer.Length <= INT_MAX
      && |prefix| <= offset <= |prefix| + |t|
      && buffer[..|prefix| + |t|] == prefix + t && buffer[|prefix| + |t|] == NUL
    }

    /** A buffer that may not be reallocated is kept. */
    twostate predicate Kept()
      reads this
    {
      (buffer == old(buffer) || fresh(buffer)) && (noalloc ==> buffer == old(buffer))
    }

    /** `ensure`: room for `needed` more bytes and a terminator. */
    method Ensure(needed: nat) returns (ok: bool)
      requires offset <= buffer.Length <= INT_MAX
      modifies this`buffer
      ensures Kept() && buffer.Length <= INT_MAX
      ensures ok <==> (buffer.Length == 0 || offset < buffer.Length) && offset + needed + 1 <= Capacity()
      ensures ok ==> offset + needed + 1 <= buffer.Length && buffer[..offset] == old(buffer[..offset])
      ensures !ok ==> buffer == old(buffer)
    {
      if buffer.Length > 0 && offset >= buffer.Length {
        return false;
      }
      if needed > INT_MAX {
        return false;
      }
      var total := needed + offset + 1;
      if total <= buffer.Length {
        return true;
      }
      if noalloc {
        return false;
      }
      var newsize;
      if total > INT_MAX / 2 {
        if total <= INT_MAX {
          newsize := INT_MAX;
        } else {
          return false;
        }
      } else {
        newsize := total * 2;
      }
      var newbuffer := new byte[newsize];
      forall i | 0 <= i < buffer.Length {
        newbuffer[i] := buffer[i];
      }
      assert newbuffer[..offset] == buffer[..offset];
      buffer := newbuffer;
      return true;
    }

    /** `ensure`, called with `prefix` written. */
    method EnsureAfter(needed: nat, ghost prefix: seq<byte>) returns (ok: bool)
      requires Written(prefix)
      modifies this`buffer
      ensures Kept() && Written(prefix)
      ensures ok <==> |prefix| + needed + 1 <= Capacity()
      ensures ok ==> |prefix| + needed + 1 <= buffer.Length
    {
      ok := Ensure(needed);
    }

    /** Stores `t` at `pos`, byte by byte. */
    method Put(pos: nat, t: seq<byte>)
      requires pos + |t| <= buffer.Length
      modifies buffer
      ensures buffer[..pos + |t|] == old(buffer[..pos]) + t
    {
      var i := 0;
      while i < |t|
        invariant 0 <= i <= |t|
        invariant buffer[..pos + i] == old(buffer[..pos]) + t[..i]
      {
        buffer[pos + i] := t[i];
        assert buffer[..pos + i + 1] == buffer[..pos + i] + [t[i]];
        i := i + 1;
      }
      assert t[..i] == t;
    }

    /** Stores `t` and moves the offset past it. */
    method Append(t: seq<byte>, ghost prefix: seq<byte>)
      requires Written(prefix) && |prefix| + |t| < buffer.Length
      modifies buffer, this`offset
      ensures Written(prefix + t)
    {
      Put(offset, t);
      offset := offset + |t|;
    }

    /** Stores `t` and a terminator, leaving the offset alone. */
    method PutString(t: seq<byte>, ghost prefix: seq<byte>)
      requires Written(prefix) && |prefix| + |t| + 1 <= buffer.Length
      modifies buffer
      ensures Ended(prefix, t)
    {
      Put(offset, t + [NUL]);
      ghost var end := offset + |t|;
      assert buffer[..end + 1] == prefix + (t + [NUL]);
      assert buffer[end] == buffer[..end + 1][end];
      assert buffer[..end] == buffer[..end + 1][..end] == prefix + t;
    }

    /** `ensure`, then `t` and on behind it. */
    method EnsureAppend(needed: nat, t: seq<byte>, ghost prefix: seq<byte>) returns (ok: bool)
      requires Written(prefix) && |t| <= needed
      modifies this`buffer, this`offset, buffer
      ensures Kept() && (ok <==> |prefix| + needed + 1 <= Capacity()) && (ok ==> Written(prefix + t))
    {
      hide Written;
      ok := EnsureAfter(needed, prefix);
      if ok {
        Append(t, prefix);
      }
    }

    /** `ensure`, then `t` and a terminator. */
    method EnsurePut(needed: nat, t: seq<byte>, ghost prefix: seq<byte>) returns (ok: bool)
      requires Written(prefix) && |t| <= needed
      modifies this`buffer, buffer
      ensures Kept() && (ok <==> |prefix| + needed + 1 <= Capacity()) && (ok ==> Ended(prefix, t))
    {
      hide Written, Ended;
      ok := EnsureAfter(needed, prefix);
      if ok {
        PutString(t, prefix);
      }
    }

    lemma EndedJoins(prefix: seq<byte>, a: seq<byte>, b: seq<byte>)
      requires Ended(prefix + a, b)
      ensures Ended(prefix, a + b)
    {
      assert prefix + a + b == prefix + (a + b);
    }

    /** `update_offset`: moves the offset to the terminator of the string it stands in. */
    method UpdateOffset(ghost prefix: seq<byte>, ghost t: seq<byte>)
      requires Ended(prefix, t) && NulFree(t)
      modifies this`offset
      ensures Written(prefix + t)
    {
      ghost var end := |prefix| + |t|;
      forall i | offset <= i < end ensures buffer[i] != NUL {
        assert buffer[i] == buffer[..end][i] == t[i - |prefix|];
      }
      var length := 0;
      while buffer[offset + length] != NUL
        invariant offset + length <= end
        decreases end - (offset + length)
      {
        length := length + 1;
      }
      offset := offset + length;
    }

    // ----- Values -----

    /** What every printing method promises: it succeeds exactly when `t` and two bytes fit,
        and then `t` stands after `prefix`. */
    twostate predicate Printed(ok: bool, prefix: seq<byte>, t: seq<byte>)
      reads this, buffer
    {
      && Kept()
      && (ok <==> |prefix| + |t| + 2 <= Capacity())
      && (ok ==> Ended(prefix, t) && depth == old(depth))
    }

    /** The same for the parts after which the offset is moved on. */
    twostate predicate Added(ok: bool, prefix: seq<byte>, t: seq<byte>)
      reads this, buffer
    {
      && Kept()
      && (ok <==> |prefix| + |t| + 2 <= Capacity())
      && (ok ==> Written(prefix + t) && depth == old(depth))
    }

    method PrintNumber(r: real, ghost prefix: seq<byte>) returns (ok: bool)
      requires Written(prefix) && PlainInteger(r)
      modifies this, buffer
      ensures Printed(ok, prefix, IntegerText(r.Floor))
    {
      var numberBuffer := IntegerText(r.Floor);
      IntegerTextLength(r.Floor);
      assert |numberBuffer| <= 25; // so the source's check of the sprintf result never fires
      ok := EnsureAfter(|numberBuffer| + 1, prefix);
      if !ok {
        return;
      }
      PutString(numberBuffer, prefix);
      offset := offset + |numberBuffer|;
    }

    method PrintStringPtr(s: seq<byte>, ghost prefix: seq<byte>) returns (ok: bool)
      requires Written(prefix) && NulFree(s)
      modifies this, buffer
      ensures Printed(ok, prefix, Quoted(s))
    {
      hide Written, Ended;
      var escapeCharacters := CountEscapes(s);
      var outputLength := |s| + escapeCharacters;
      ok := EnsureAfter(outputLength + 3, prefix);
      if !ok {
        return;
      }
      if escapeCharacters == 0 {
        PutString([QUOTE] + s + [QUOTE], prefix);
      } else {
        PutEscaped(s, prefix);
      }
    }

    /** The first loop of `print_string_ptr`. */
    static method CountEscapes(s: seq<byte>) returns (escapeCharacters: nat)
      ensures |s| + escapeCharacters == |EscapeText(s)|
      ensures escapeCharacters == 0 ==> EscapeText(s) == s
    {
      hide EscapeText, EscapeByte;
      escapeCharacters := 0;
      var i := 0;
      EscapeTextSplit(s, 0);
      while i < |s|
        invariant 0 <= i <= |s|
        invariant i + escapeCharacters + |EscapeText(s[i..])| == |EscapeText(s)|
        invariant escapeCharacters == 0 ==> EscapeText(s) == s[..i] + EscapeText(s[i..])
      {
        EscapeTextSplit(s, i);
        EscapeByteLength(s[i]);
        if IsShortEscaped(s[i]) {
          escapeCharacters := escapeCharacters + 1;
        } else if s[i] < 32 {
          escapeCharacters := escapeCharacters + 5;
        } else {
          assert s[..i] + ([s[i]] + EscapeText(s[i + 1..])) == s[..i + 1] + EscapeText(s[i + 1..]);
        }
        i := i + 1;
      }
      EscapeTextSplit(s, i);
      assert s[..i] + [] == s;
    }

    /** The escaping loop of `print_string_ptr`, and the quotes around it. */
    method PutEscaped(s: seq<byte>, ghost prefix: seq<byte>)
      requires Written(prefix) && |prefix| + |Quoted(s)| + 1 < buffer.Length
      modifies buffer
      ensures Ended(prefix, Quoted(s))
    {
      hide EscapeText, EscapeByte, Ended;
      Put(offset, [QUOTE]);
      ghost var open, done := prefix + [QUOTE], [];
      var outputPointer, i := offset + 1, 0;
      assert open + done == open;
      EscapeTextSplit(s, 0);
      assert done + EscapeText(s) == EscapeText(s);
      while i < |s|
        invariant 0 <= i <= |s|
        invariant outputPointer == offset + 1 + |done|
        invariant EscapeText(s) == done + EscapeText(s[i..])
        invariant buffer[..outputPointer] == open + done
      {
        EscapeTextSplit(s, i);
        var t := EscapeByte(s[i]);
        assert done + (t + EscapeText(s[i + 1..])) == (done + t) + EscapeText(s[i + 1..]);
        PutSprintf(outputPointer, t);
        assert (open + done) + t == open + (done + t);
        done := done + t;
        outputPointer := outputPointer + |t|;
        i := i + 1;
      }
      EscapeTextSplit(s, i);
      assert done + [] == done == EscapeText(s);
      assert open + done == prefix + ([QUOTE] + EscapeText(s));
      CloseQuoted(outputPointer, s, prefix);
    }

    /** The closing quote and the terminator. */
    method CloseQuoted(pos: nat, s: seq<byte>, ghost prefix: seq<byte>)
      requires pos + 1 < buffer.Length <= INT_MAX && offset == |prefix|
      requires buffer[..pos] == prefix + ([QUOTE] + EscapeText(s))
      modifies buffer
      ensures Ended(prefix, Quoted(s))
    {
      hide EscapeText;
      ghost var end := pos + 1;
      Put(pos, [QUOTE, NUL]);
      assert buffer[..end + 1] == (prefix + ([QUOTE] + EscapeText(s))) + [QUOTE, NUL];
      assert buffer[end] == buffer[..end + 1][end];
      assert buffer[..end] == buffer[..end + 1][..end] == prefix + Quoted(s);
    }

    /** One escaped byte; the `sprintf` of a `\u` escape also stores a terminator after it. */
    method PutSprintf(pos: nat, t: seq<byte>)
      requires pos + |t| < buffer.Length
      modifies buffer
      ensures buffer[..pos + |t|] == old(buffer[..pos]) + t
    {
      Put(pos, t);
      if |t| == 6 {
        ghost var before := buffer[..pos + |t|];
        buffer[pos + |t|] := NUL;
        assert buffer[..pos + |t|] == before;
      }
    }

    method PrintLiteral(t: seq<byte>, ghost prefix: seq<byte>) returns (ok: bool)
      requires Written(prefix)
      modifies this, buffer
      ensures Printed(ok, prefix, t)
    {
      ok := EnsureAfter(|t| + 1, prefix);
      if ok {
        PutString(t, prefix);
      }
    }

    /** `print_value` on the nodes that form a tree: the text of what they say. */
    method PrintValue(item: Item, ghost s: Shape, ghost t: Tree, ghost prefix: seq<byte>) returns (ok: bool)
      requires Written(prefix) && s.item == item && Forms(s, t) && Printable(Said(t))
      modifies this, buffer
      ensures Printed(ok, prefix, Text(Said(t), format, old(depth)))
      decreases Weight(s), 4
    {
      hide Written, Ended, Forms, Printable, Said;
      FormsStarts(s, t);
      KindSaid(t);
      match item.content.kind {
        case NullKind => ok := PrintLiteral(NULL_TEXT, prefix);
        case FalseKind => ok := PrintLiteral(FALSE_TEXT, prefix);
        case TrueKind => ok := PrintLiteral(TRUE_TEXT, prefix);
        case NumberKind =>
          NumberPrintable(item.content.number);
          ok := PrintNumber(item.content.number, prefix);
        case StringKind =>
          StringPrintable(item.content.text);
          ok := PrintStringPtr(CString(item.content.text), prefix);
        case ArrayKind => ok := PrintArray(item, s, t, prefix);
        case ObjectKind => ok := PrintObject(item, s, t, prefix);
      }
    }

    method PrintArray(item: Item, ghost s: Shape, ghost t: Tree, ghost prefix: seq<byte>) returns (ok: bool)
      requires Written(prefix) && s.item == item && Forms(s, t) && t.own.kind == ArrayKind && Printable(Said(t))
      modifies this, buffer
      ensures Printed(ok, prefix, Text(Said(t), format, old(depth)))
      decreases Weight(s), 3
    {
      hide Written, Ended, ItemsText, Printable, Text, Said, Forms;
      ghost var items := ItemsSaid(t.children);
      KindSaid(t);
      ArrayTextParts(items, format, depth);
      assert allocated(Nodes(s));
      ok := EnsureAppend(1, [LEFT_BRACKET], prefix);
      if !ok {
        return;
      }
      depth := depth + 1;
      ghost var inner := ItemsText(items, format, depth);
      assert Forms(s, t);
      ok := PrintItems(item, s, t, prefix + [LEFT_BRACKET]);
      if !ok {
        return;
      }
      ghost var done := [LEFT_BRACKET] + inner;
      assert prefix + [LEFT_BRACKET] + inner == prefix + done;
      ok := EnsurePut(2, [RIGHT_BRACKET], prefix + done);
      if !ok {
        return;
      }
      EndedJoins(prefix, done, [RIGHT_BRACKET]);
      depth := depth - 1;
    }

    static lemma ArrayTextParts(items: seq<Value>, format: bool, depth: nat)
      ensures Text(Array(items), format, depth) == [LEFT_BRACKET] + ItemsText(items, format, depth + 1) + [RIGHT_BRACKET]
    {
    }

    static lemma TextJoins(prefix: seq<byte>, done: seq<byte>, text: seq<byte>, rest: seq<byte>)
      ensures prefix + done + text == prefix + (done + text) && done + (text + rest) == (done + text) + rest
    {
    }

    /** The loop of `print_array`, along the children. */
    method PrintItems(item: Item, ghost s: Shape, ghost t: Tree, ghost prefix: seq<byte>) returns (ok: bool)
      requires Written(prefix) && s.item == item && Forms(s, t) && t.own.kind == ArrayKind && Printable(Said(t))
      modifies this, buffer
      ensures Kept()
      ensures ok <==> t.children == [] || |prefix| + |ItemsText(ItemsSaid(t.children), format, old(depth))| + 2 <= Capacity()
      ensures ok ==> Written(prefix + ItemsText(ItemsSaid(t.children), format, old(depth))) && depth == old(depth)
      decreases Weight(s), 2
    {
      hide Written, Ended, Text, ItemText, ItemsText, Forms, Said, ItemsSaid, Printable;
      ghost var items := ItemsSaid(t.children);
      FormsStarts(s, t);
      OneSaid(t.children, 0);
      var currentElement := item.child;
      ghost var i := 0;
      ok := true;
      ghost var done: seq<byte> := [];
      assert prefix + done == prefix;
      ItemsTextSplit(items, 0, format, depth);
      assert done + ItemsText(items, format, depth) == ItemsText(items, format, depth);
      while currentElement != null
        invariant 0 <= i <= |items| == |s.subs| == |t.children| && Forms(s, t)
        invariant currentElement == if i < |s.subs| then s.subs[i].item else null
        invariant Kept() && depth == old(depth) && ok
        invariant Written(prefix + done)
        invariant ItemsText(items, format, depth) == done + ItemsText(items[i..], format, depth)
        invariant i > 0 ==> |prefix| + |done| + 2 <= Capacity()
        decreases |items| - i
      {
        ghost var text := ItemText(items[i], i + 1 == |items|, format, depth);
        ItemsTextSplit(items, i, format, depth);
        ok := PrintItem(currentElement, s, t, i, prefix + done);
        if !ok {
          return;
        }
        TextJoins(prefix, done, text, ItemsText(items[i + 1..], format, depth));
        done := done + text;
        currentElement := currentElement.next;
        i := i + 1;
      }
      ItemsTextSplit(items, i, format, depth);
      assert done + [] == done;
    }

    /** One turn of that loop: child number i, and a separator unless it is the last. */
    method PrintItem(item: Item, ghost s: Shape, ghost t: Tree, ghost i: nat, ghost prefix: seq<byte>) returns (ok: bool)
      requires Written(prefix) && Forms(s, t) && t.own.kind == ArrayKind && Printable(Said(t))
      requires i < |s.subs| == |t.children| == |ItemsSaid(t.children)| && item == s.subs[i].item
      modifies this, buffer
      ensures Added(ok, prefix, ItemText(ItemsSaid(t.children)[i], i + 1 == |s.subs|, format, old(depth)))
      ensures Forms(s, t) && item.next == if i + 1 < |s.subs| then s.subs[i + 1].item else null
      decreases Weight(s), 1
    {
      hide Written, Ended, Text, Printable, Forms, Said;
      var following := item.next;
      FormsChild(s, t, i);
      ChildSaid(t, i);
      ghost var text := Text(ItemsSaid(t.children)[i], format, depth);
      assert allocated(Nodes(s));
      ok := PrintValue(item, s.subs[i], t.children[i], prefix);
      if ok {
        TextNulFree(ItemsSaid(t.children)[i], format, depth);
        ok := Separate(following != null, text, prefix);
      }
      assert Forms(s, t);
      FormsChild(s, t, i);
    }

    /** Passes what has been printed; then a separator, if more follows. */
    method Separate(more: bool, ghost text: seq<byte>, ghost prefix: seq<byte>) returns (ok: bool)
      requires Ended(prefix, text) && NulFree(text) && |prefix| + |text| + 2 <= Capacity()
      modifies this, buffer
      ensures Added(ok, prefix, text + (if more then Separator(format) else []))
    {
      hide Written, Ended;
      UpdateOffset(prefix, text);
      ok := true;
      if more {
        var length := if format then 2 else 1;
        ok := EnsureAppend(length + 1, Separator(format), prefix + text);
        assert prefix + text + Separator(format) == prefix + (text + Separator(format));
      } else {
        assert text + [] == text;
      }
    }

    method PrintObject(item: Item, ghost s: Shape, ghost t: Tree, ghost prefix: seq<byte>) returns (ok: bool)
      requires Written(prefix) && s.item == item && Forms(s, t) && t.own.kind == ObjectKind && Printable(Said(t))
      modifies this, buffer
      ensures Printed(ok, prefix, Text(Said(t), format, old(depth)))
      decreases Weight(s), 3
    {
      hide Written, Ended, MembersText, Printable, CloseObject, Text, Said, Forms;
      ghost var members := MembersSaid(t.children);
      KindSaid(t);
      ObjectTextParts(members, format, depth);
      assert allocated(Nodes(s));
      var length := if format then 2 else 1;
      ok := EnsureAppend(length + 1, OpenObject(format), prefix);
      if !ok {
        return;
      }
      depth := depth + 1;
      ghost var inner := MembersText(members, format, depth);
      assert Forms(s, t);
      ok := PrintMembers(item, s, t, prefix + OpenObject(format));
      if !ok {
        return;
      }
      ghost var done := OpenObject(format) + inner;
      assert prefix + OpenObject(format) + inner == prefix + done;
      var close := CloseObject(format, depth - 1);
      ok := EnsurePut(if format then depth + 1 else 2, close, prefix + done);
      if !ok {
        return;
      }
      EndedJoins(prefix, done, close);
      depth := depth - 1;
    }

    /** The loop of `print_object`, along the children. */
    method PrintMembers(item: Item, ghost s: Shape, ghost t: Tree, ghost prefix: seq<byte>) returns (ok: bool)
      requires Written(prefix) && s.item == item && Forms(s, t) && t.own.kind == ObjectKind && Printable(Said(t))
      modifies this, buffer
      ensures Kept()
      ensures ok <==> t.children == [] || |prefix| + |MembersText(MembersSaid(t.children), format, old(depth))| + 2 <= Capacity()
      ensures ok ==> Written(prefix + MembersText(MembersSaid(t.children), format, old(depth))) && depth == old(depth)
      decreases Weight(s), 2
    {
      hide Written, Ended, MemberText, MembersText, Forms, Said, MembersSaid, Printable;
      ghost var members := MembersSaid(t.children);
      FormsStarts(s, t);
      OneSaid(t.children, 0);
      var currentItem := item.child;
      ghost var i := 0;
      ok := true;
      ghost var done: seq<byte> := [];
      assert prefix + done == prefix;
      MembersTextSplit(members, 0, format, depth);
      assert done + MembersText(members, format, depth) == MembersText(members, format, depth);
      while currentItem != null
        invariant 0 <= i <= |members| == |s.subs| == |t.children| && Forms(s, t)
        invariant currentItem == if i < |s.subs| then s.subs[i].item else null
        invariant Kept() && depth == old(depth) && ok
        invariant Written(prefix + done)
        invariant MembersText(members, format, depth) == done + MembersText(members[i..], format, depth)
        invariant i > 0 ==> |prefix| + |done| + 2 <= Capacity()
        decreases |members| - i
      {
        ghost var text := MemberText(members[i], format, depth, i + 1 == |members|);
        MembersTextSplit(members, i, format, depth);
        ok := PrintMember(currentItem, s, t, i, prefix + done);
        if !ok {
          return;
        }
        TextJoins(prefix, done, text, MembersText(members[i + 1..], format, depth));
        done := done + text;
        currentItem := currentItem.next;
        i := i + 1;
      }
      MembersTextSplit(members, i, format, depth);
      assert done + [] == done;
    }

    /** One turn of that loop, for child number i. */
    method PrintMember(item: Item, ghost s: Shape, ghost t: Tree, ghost i: nat, ghost prefix: seq<byte>) returns (ok: bool)
      requires Written(prefix) && Forms(s, t) && t.own.kind == ObjectKind && Printable(Said(t))
      requires i < |s.subs| == |t.children| == |MembersSaid(t.children)| && item == s.subs[i].item
      modifies this, buffer
      ensures Added(ok, prefix, MemberText(MembersSaid(t.children)[i], format, old(depth), i + 1 == |s.subs|))
      ensures Forms(s, t) && item.next == if i + 1 < |s.subs| then s.subs[i + 1].item else null
      decreases Weight(s), 1
    {
      hide Written, Ended, Text, Printable, MemberText, Forms, Said, CString;
      var following := item.next;
      FormsChild(s, t, i);
      FormsStarts(s.subs[i], t.children[i]);
      ChildSaid(t, i);
      ghost var m := MembersSaid(t.children)[i];
      CStringWhole(item.content.key);
      ghost var name, value := NameText(m.key, format, depth), Text(m.value, format, depth);
      MemberTextParts(m, format, depth, i + 1 == |s.subs|);
      assert allocated(Nodes(s));
      ok := PrintName(CString(item.content.key), prefix);
      assert Forms(s, t);
      FormsChild(s, t, i);
      if !ok {
        return;
      }
      ok := PrintValue(item, s.subs[i], t.children[i], prefix + name);
      if ok {
        TextNulFree(m.value, format, depth);
        ok := EndLine(following == null, name, value, prefix);
      }
      assert Forms(s, t);
      FormsChild(s, t, i);
    }

    /** Passes the value that has been printed behind a name; then the end of the member. */
    method EndLine(last: bool, ghost name: seq<byte>, ghost value: seq<byte>, ghost prefix: seq<byte>) returns (ok: bool)
      requires Ended(prefix + name, value) && NulFree(value) && |prefix| + |name| + |value| + 2 <= Capacity()
      modifies this, buffer
      ensures Added(ok, prefix, name + value + EndMember(format, last))
    {
      hide Written, Ended;
      UpdateOffset(prefix + name, value);
      ghost var done := name + value;
      assert prefix + name + value == prefix + done;
      var length := (if format then 1 else 0) + (if last then 0 else 1);
      ok := EnsureAppend(length + 1, EndMember(format, last), prefix + done);
      assert prefix + done + EndMember(format, last) == prefix + (done + EndMember(format, last));
    }

    /** The indentation, the key and the colon of a member. */
    method PrintName(key: seq<byte>, ghost prefix: seq<byte>) returns (ok: bool)
      requires Written(prefix) && NulFree(key)
      modifies this, buffer
      ensures Kept()
      ensures !ok ==> |prefix| + |NameText(key, format, old(depth))| + 2 > Capacity()
      ensures ok ==> Written(prefix + NameText(key, format, old(depth))) && depth == old(depth)
    {
      hide Written, Ended, Quoted, Tabs;
      ghost var tabs: seq<byte> := [];
      assert prefix + tabs == prefix;
      if format {
        ok := EnsureAppend(depth, Tabs(depth), prefix);
        if !ok {
          return;
        }
        tabs := Tabs(depth);
      }
      ok := PrintStringPtr(key, prefix + tabs);
      if !ok {
        return;
      }
      EscapeTextNulFree(key);
      UpdateOffset(prefix + tabs, Quoted(key));
      var length := if format then 2 else 1;
      ok := EnsureAppend(length, ColonText(format), prefix + tabs + Quoted(key));
      if !ok {
        return;
      }
      assert prefix + tabs + Quoted(key) + ColonText(format) == prefix + (tabs + Quoted(key) + ColonText(format));
    }

    // ----- Entry points -----

    /** What the entry points are called with: nothing, or nodes that form a tree whose numbers print as plain integers. */
    static ghost predicate Given(item: Item?, s: Shape, t: Tree)
      reads Nodes(s)
    {
      item != null ==> s.item == item && Forms(s, t) && PlainNumbers(ValueOf(t))
    }

    /** `print`: the text of the tree, from a growing buffer. */
    static method Print(item: Item?, format: bool, ghost s: Shape, ghost t: Tree) returns (printed: Option<seq<byte>>)
      requires Given(item, s, t)
      ensures var text := Text(Said(t), format, 0);
              printed == if item != null && |text| + 2 <= INT_MAX then Some(text) else None
    {
      hide Text, Printable, Said, Forms, PlainNumbers;
      ghost var text := Text(Said(t), format, 0);
      assert allocated(Nodes(s));
      var buffer := new byte[256];
      var p := new PrintBuffer(buffer, false, format);
      if item == null {
        return None;
      }
      PlainIsPrintable(t);
      assert Forms(s, t);
      var ok := p.PrintValue(item, s, t, []);
      if !ok {
        return None;
      }
      TextNulFree(Said(t), format, 0);
      p.UpdateOffset([], text);
      assert [] + text == text;
      return Some(p.buffer[..p.offset]);
    }

    /** `cJSON_PrintBuffered`: the buffer and how much of it is text. */
    static method PrintBuffered(item: Item?, prebuffer: int, format: bool, ghost s: Shape, ghost t: Tree)
      returns (printed: Option<array<byte>>)
      requires Given(item, s, t) && prebuffer <= INT_MAX
      ensures printed.Some? <==> item != null && prebuffer >= 0 && |Text(Said(t), format, 0)| + 2 <= INT_MAX
      ensures printed.Some? ==> HoldsString(printed.value, Text(Said(t), format, 0))
    {
      hide Text, Printable, Said, Forms, PlainNumbers;
      if prebuffer < 0 {
        return None;
      }
      assert allocated(Nodes(s));
      var buffer := new byte[prebuffer];
      var p := new PrintBuffer(buffer, false, format);
      if item == null {
        return None;
      }
      PlainIsPrintable(t);
      assert Forms(s, t);
      var ok := p.PrintValue(item, s, t, []);
      if !ok {
        return None;
      }
      assert [] + Text(Said(t), format, 0) == Text(Said(t), format, 0);
      return Some(p.buffer);
    }

    /** `cJSON_PrintPreallocated`: prints into a buffer of `length` bytes, all of them the caller's. */
    static method PrintPreallocated(item: Item?, buffer: array<byte>, length: int, format: bool, ghost s: Shape, ghost t: Tree)
      returns (ok: bool)
      requires Given(item, s, t) && length <= INT_MAX && (length >= 0 ==> buffer.Length == length)
      modifies buffer
      ensures ok <==> item != null && |Text(Said(t), format, 0)| + 2 <= length
      ensures ok ==> HoldsString(buffer, Text(Said(t), format, 0))
    {
      hide Text, Printable, Said, Forms, PlainNumbers;
      if length < 0 {
        return false;
      }
      assert allocated(Nodes(s));
      var p := new PrintBuffer(buffer, true, format);
      if item == null {
        return false;
      }
      PlainIsPrintable(t);
      assert Forms(s, t);
      ok := p.PrintValue(item, s, t, []);
      assert [] + Text(Said(t), format, 0) == Text(Said(t), format, 0);
    }
  }

  /** The C string at the start of `buffer` is `t`. */
  predicate HoldsString(buffer: array<byte>, t: seq<byte>)
    reads buffer
  {
    |t| < buffer.Length && buffer[..|t|] == t && buffer[|t|] == NUL
  }

  // ----- How the texts are put together -----

  predicate IsShortEscaped(b: byte) {
    b == QUOTE || b == BACKSLASH || b == BACKSPACE || b == FORM_FEED || b == LINE_FEED || b == RETURN || b == TAB
  }

  lemma EscapeByteLength(b: byte)
    ensures |EscapeByte(b)| == 1 + if IsShortEscaped(b) then 1 else if b < 32 then 5 else 0
    ensures !IsShortEscaped(b) && b >= 32 ==> EscapeByte(b) == [b]
  {
  }

  lemma EscapeTextSplit(s: seq<byte>, i: nat)
    requires i <= |s|
    ensures i < |s| ==> EscapeText(s[i..]) == EscapeByte(s[i]) + EscapeText(s[i + 1..])
    ensures i == |s| ==> EscapeText(s[i..]) == []
    ensures s[0..] == s && s[..0] + EscapeText(s) == EscapeText(s)
  {
    hide EscapeByte;
    if i < |s| {
      assert s[i..][0] == s[i] && s[i..][1..] == s[i + 1..];
    }
  }

  function ItemText(v: Value, last: bool, format: bool, depth: nat): seq<byte> {
    Text(v, format, depth) + (if last then [] else Separator(format))
  }

  function NameText(key: seq<byte>, format: bool, depth: nat): seq<byte> {
    (if format then Tabs(depth) else []) + Quoted(key) + ColonText(format)
  }

  lemma ItemsTextSplit(items: seq<Value>, i: nat, format: bool, depth: nat)
    requires i <= |items|
    ensures i < |items| ==>
      ItemsText(items[i..], format, depth)
      == ItemText(items[i], i + 1 == |items|, format, depth) + ItemsText(items[i + 1..], format, depth)
    ensures i == |items| ==> ItemsText(items[i..], format, depth) == []
    ensures items[0..] == items
  {
    hide Text;
    if i < |items| {
      assert items[i..][0] == items[i] && items[i..][1..] == items[i + 1..];
    }
  }

  lemma MembersTextSplit(members: seq<Member>, i: nat, format: bool, depth: nat)
    requires i <= |members|
    ensures i < |members| ==>
      MembersText(members[i..], format, depth)
      == MemberText(members[i], format, depth, i + 1 == |members|) + MembersText(members[i + 1..], format, depth)
    ensures i == |members| ==> MembersText(members[i..], format, depth) == []
    ensures members[0..] == members
  {
    hide MemberText;
    if i < |members| {
      assert members[i..][0] == members[i] && members[i..][1..] == members[i + 1..];
    }
  }

  lemma ObjectTextParts(members: seq<Member>, format: bool, depth: nat)
    ensures Text(Object(members), format, depth)
         == OpenObject(format) + MembersText(members, format, depth + 1)
            + CloseObject(format, depth)
  {
    hide MembersText;
  }

  lemma MemberTextParts(m: Member, format: bool, depth: nat, last: bool)
    ensures MemberText(m, format, depth, last)
         == NameText(m.key, format, depth) + Text(m.value, format, depth) + EndMember(format, last)
  {
    hide Text, Quoted;
  }
}
