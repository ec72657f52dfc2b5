/**
 What typing does to a line, said of the bytes typed and apart from the decoder: the editing keys of
 firmware/src/at_cmd_engine/terminal/terminal.c, and the bytes that never reach the line.
 */
module Editor {
  import opened Bytes
  import opened History
  import opened HistoryRing
  import opened Ansi
  import opened Terminal

  // ----- Editing -----

  /** A line, where the next byte goes, and whether a byte has come that there was no room for. */
  datatype Edit = Edit(text: seq<byte>, pos: nat, full: bool)

  /** One byte: a displayable one is put in place of what is there, or at the end; backspace (8) steps back, and takes the last
      character away when it stands behind it; return (13) goes to the start; nothing else does anything. */
  function Keyed(e: Edit, c: byte): (r: Edit)
    requires e.pos <= |e.text|
    ensures r.pos <= |r.text|
  {
    if 32 <= c <= 126 then
      Edit(e.text[..e.pos] + [c] + (if e.pos < |e.text| then e.text[e.pos + 1..] else []), e.pos + 1, false)
    else if c == 8 && e.pos > 0 then Edit(if e.pos == |e.text| then e.text[..e.pos - 1] else e.text, e.pos - 1, false)
    else if c == 13 then Edit(e.text, 0, false)
    else e
  }

  /** All bytes, up to one that comes when 512 are there. */
  function Edited(e: Edit, keys: seq<byte>): (r: Edit)
    requires e.pos <= |e.text|
    ensures r.pos <= |r.text|
    decreases |keys|
  {
    if keys == [] || e.full then e
    else if e.pos >= 512 then e.(full := true)
    else Edited(Keyed(e, keys[0]), keys[1..])
  }

  /** No line feed and no ESC. */
  predicate AllKeys(keys: seq<byte>) {
    forall i :: 0 <= i < |keys| ==> keys[i] != 10 && keys[i] != 27
  }

  /** The screen's line and insert position; all else but the decoder as before. */
  ghost predicate ShowsEdit(s: Screen, r: (Screen, Event), e: Edit) {
    && r.0 == s.(text := e.text, pos := e.pos, decoder := r.0.decoder) && r.0.decoder.state == Ground
    && r.1 == if e.full then Error else NoEvent
  }

  lemma KeyStep(s: Screen, c: byte)
    requires Editing(s) && s.decoder.state == Ground && c != 10 && c != 27
    ensures ShowsEdit(s, Step(s, c), Edited(Edit(s.text, s.pos, false), [c]))
  {
    assert [c][1..] == [];
    if s.pos < |s.text| {
      assert s.text[s.pos := c] == s.text[..s.pos] + [c] + s.text[s.pos + 1..];
    } else {
      assert s.text[..s.pos] + [c] + [] == s.text + [c];
    }
  }

  /** In any mixture of bytes without line feed and ESC, echo on or off, the line is that of the edit; a byte that comes when
      the insert position is at 512 is refused, and ends the call. */
  lemma {:induction false} TypingEdits(s: Screen, keys: seq<byte>)
    requires Editing(s) && s.decoder.state == Ground && AllKeys(keys)
    ensures ShowsEdit(s, Steps(s, keys), Edited(Edit(s.text, s.pos, false), keys))
    decreases |keys|
  {
    hide Step, Editing, Keyed;
    if keys != [] {
      KeyStep(s, keys[0]);
      StepKeepsEditing(s, keys[0]);
      EditingBounds(s);
      EditedOne(Edit(s.text, s.pos, false), keys[0]);
      if Step(s, keys[0]).1 == NoEvent {
        TypingEdits(Step(s, keys[0]).0, keys[1..]);
      }
    }
  }

  lemma EditedOne(e: Edit, c: byte)
    requires e.pos <= |e.text| && !e.full
    ensures Edited(e, [c]) == (if e.pos >= 512 then e.(full := true) else Keyed(e, c)) && !Keyed(e, c).full
  {
    assert [c][1..] == [];
  }

  function Times(k: nat, c: byte): seq<byte> {
    seq(k, i => c)
  }

  /** Typing a text and then backspace k times leaves all but its last k characters, and nothing when there are no more. */
  lemma BackspacesErase(s: Screen, t: seq<byte>, k: nat)
    requires Editing(s) && s.decoder.state == Ground && s.text == [] && AllDisplayable(t) && |t| < 512
    ensures ShowsEdit(s, Steps(s, t + Times(k, 8)), Edit(t[..if k <= |t| then |t| - k else 0], if k <= |t| then |t| - k else 0, false))
  {
    hide Steps, Editing, Edited;
    var empty := Edit([], 0, false);
    EditedAppends(empty, t);
    EditedErases(t, k);
    EditedConcat(empty, t, Times(k, 8));
    assert [] + t == t;
    EditingBounds(s);
    TypedKeys(t, k);
    TypingEdits(s, t + Times(k, 8));
  }

  lemma TypedKeys(t: seq<byte>, k: nat)
    requires AllDisplayable(t)
    ensures AllKeys(t + Times(k, 8))
  {
    forall i | 0 <= i < |t| + k ensures (t + Times(k, 8))[i] != 10 && (t + Times(k, 8))[i] != 27 {
      assert i < |t| ==> IsDisplayable(t[i]);
    }
  }

  lemma {:induction false} EditedConcat(e: Edit, a: seq<byte>, b: seq<byte>)
    requires e.pos <= |e.text|
    ensures Edited(e, a + b) == Edited(Edited(e, a), b)
    decreases |a|
  {
    hide Keyed;
    if a == [] {
      assert a + b == b;
    } else {
      assert (a + b)[0] == a[0] && (a + b)[1..] == a[1..] + b;
      if !e.full && e.pos < 512 {
        EditedConcat(Keyed(e, a[0]), a[1..], b);
      }
    }
  }

  lemma {:induction false} EditedAppends(e: Edit, t: seq<byte>)
    requires e.pos == |e.text| && |e.text| + |t| <= 512 && !e.full && AllDisplayable(t)
    ensures Edited(e, t) == Edit(e.text + t, |e.text| + |t|, false)
    decreases |t|
  {
    if t == [] {
      assert e.text + t == e.text;
    } else {
      assert IsDisplayable(t[0]);
      assert e.text[..e.pos] + [t[0]] + [] == e.text + [t[0]];
      EditedAppends(Keyed(e, t[0]), t[1..]);
      assert e.text + [t[0]] + t[1..] == e.text + t;
    }
  }

  lemma {:induction false} EditedErases(t: seq<byte>, k: nat)
    requires |t| < 512
    ensures var n := if k <= |t| then |t| - k else 0; Edited(Edit(t, |t|, false), Times(k, 8)) == Edit(t[..n], n, false)
    decreases k
  {
    var e := Edit(t, |t|, false);
    if k == 0 {
      assert t[..|t|] == t;
    } else {
      assert Times(k, 8)[1..] == Times(k - 1, 8);
      if t == [] {
        EditedErases(t, k - 1);
      } else {
        var u := t[..|t| - 1];
        EditedErases(u, k - 1);
        assert k <= |t| ==> u[..|t| - k] == t[..|t| - k];
      }
    }
  }

  /** The edited line is entered by a line feed, and remembered. */
  lemma EditedLineIsEntered(s: Screen, keys: seq<byte>)
    requires Editing(s) && s.decoder.state == Ground && AllKeys(keys)
    requires var e := Edited(Edit(s.text, s.pos, false), keys); !e.full && 0 < |e.text| < 512
    ensures var e, (r, event) := Edited(Edit(s.text, s.pos, false), keys), Steps(s, keys + [10]);
            event == EndOfLine && r.text == e.text && r.lines == Remember(s.lines, e.text)
  {
    hide Steps, Editing, Edited, Remember;
    TypingEdits(s, keys);
    StepsAppend(s, keys, [10]);
    LineFeedEnters(Steps(s, keys).0);
  }

  /** A line feed on an empty line enters nothing. */
  lemma EmptyLineStays(s: Screen)
    requires Editing(s) && s.decoder.state == Ground && s.text == []
    ensures ShowsEdit(s, Step(s, 10), Edit([], 0, false))
  {
  }

  // ----- ESC and what follows it -----

  /** A screen whose decoder has seen an ESC. */
  ghost predicate AfterEscape(s: Screen) {
    Editing(s) && s.pos < 512 && s.decoder.state == Escaped && !s.decoder.dispatched
  }

  lemma EscIsAwaited(s: Screen)
    requires Editing(s) && s.pos < 512
    ensures var (r, e) := Step(s, 27); e == NoEvent && r == s.(decoder := r.decoder) && AfterEscape(r)
  {
    StepKeepsEditing(s, 27);
  }

  /** Behind ESC, any displayable byte but `[` and `O` is typed as if the ESC had not come. */
  lemma EscThenText(s: Screen, c: byte)
    requires AfterEscape(s) && 32 <= c <= 126 && c != 91 && c != 79
    ensures ShowsEdit(s, Step(s, c), Keyed(Edit(s.text, s.pos, false), c))
  {
    if s.pos < |s.text| {
      assert s.text[s.pos := c] == s.text[..s.pos] + [c] + s.text[s.pos + 1..];
    } else {
      assert s.text[..s.pos] + [c] + [] == s.text + [c];
    }
  }

  /** ESC O and one more displayable byte are swallowed. */
  lemma EscOThenByte(s: Screen, c: byte)
    requires AfterEscape(s) && 32 <= c <= 126
    ensures var (one, e) := Step(s, 79);
            && e == NoEvent && Editing(one) && one == s.(decoder := one.decoder)
            && ShowsEdit(s, Step(one, c), Edit(s.text, s.pos, false))
  {
    StepKeepsEditing(s, 79);
  }

  /** A control byte (0 to 23, 25, 28 to 31) inside a sequence does what it does outside, and the sequence goes on behind it. */
  lemma ControlInside(s: Screen, c: byte)
    requires Editing(s) && s.decoder.state != Ground && (c <= 23 || c == 25 || 28 <= c <= 31)
    ensures var (inside, e) := Step(s, c);
            var (outside, f) := Step(s.(decoder := s.decoder.(state := Ground)), c);
            e == f && inside.decoder.state == s.decoder.state
            && inside == outside.(decoder := outside.decoder.(state := s.decoder.state))
  {
    hide Remember;
  }

  /** All other bytes that belong to no sequence, 24, 26 and from 127 on, are swallowed inside one that has begun. */
  lemma OthersInside(s: Screen, c: byte)
    requires Editing(s) && s.pos < 512 && s.decoder.state !in {Ground, Escaped} && !s.decoder.dispatched
    requires c == 24 || c == 26 || c >= 127
    ensures var (r, e) := Step(s, c);
            e == NoEvent && r == s.(decoder := r.decoder) && r.decoder.state == s.decoder.state
  {
  }
}
