/**
 From the keyboard to the parameter list: `ATCMD_ParseCommandLine` of
 firmware/src/at_cmd_engine/at_cmds/at_cmd_parser.c splits the line that was entered, and what was typed
 behind the equals sign is what the parameter parser reads.
 */
module AtCommandLine {
  import opened Bytes
  import opened AtParameters
  import opened AtPrinter
  import opened AtRoundTrip
  import opened JsonValue
  import opened Terminal
  import opened Ansi

  lemma NibbleIsDisplayable(d: nat)
    requires d < 16
    ensures IsDisplayable(NibbleChar(d))
  {
  }

  lemma ByteTextIsDisplayable(b: byte)
    ensures AllDisplayable(ByteText(b))
  {
    hide NibbleChar, IsDisplayable;
    NibbleIsDisplayable(b / 16);
    NibbleIsDisplayable(b % 16);
  }

  lemma {:induction false} HexDigitsAreDisplayable(s: seq<byte>)
    ensures AllDisplayable(HexDigits(s))
  {
    hide ByteText, IsDisplayable;
    if s != [] {
      ByteTextIsDisplayable(s[0]);
      HexDigitsAreDisplayable(s[1..]);
    }
  }

  lemma EscapeIsDisplayable(b: byte)
    ensures AllDisplayable(EscapeOf(b))
  {
  }

  lemma {:induction false} EscapesAreDisplayable(s: seq<byte>)
    ensures AllDisplayable(Escapes(s))
  {
    hide EscapeOf, IsDisplayable;
    if s != [] {
      EscapeIsDisplayable(s[0]);
      EscapesAreDisplayable(s[1..]);
    }
  }

  lemma {:induction false} DigitsAreDisplayable(n: nat)
    ensures AllDisplayable(Digits(n))
  {
    if n >= 10 {
      DigitsAreDisplayable(n / 10);
    }
  }

  lemma ItemIsDisplayable(item: Item)
    ensures AllDisplayable(ItemText(item))
  {
    hide Digits, Escapes, HexDigits;
    match item
    case IntegerItem(n) => DigitsAreDisplayable(if n < 0 then -n else n);
    case EscapedItem(s) => EscapesAreDisplayable(s);
    case HexItem(s) => HexDigitsAreDisplayable(s);
  }

  lemma {:induction false} JoinedIsDisplayable(items: seq<Item>)
    ensures AllDisplayable(JoinedText(items))
  {
    hide ItemText;
    if items != [] {
      ItemIsDisplayable(items[0]);
      JoinedIsDisplayable(items[1..]);
    }
  }

  // ----- Splitting the line -----

  /** AT_CMD_CONF_AT_BASE_STRING */
  const BASE: seq<byte> := [0x41, 0x54]

  const QUESTION: byte := 0x3F
  const SLASH: byte := 0x2F

  /** How a line is taken apart. */
  datatype CommandLine =
    | NoCommand
    | Attention
    | NoArguments(name: seq<byte>)
    | Arguments(name: seq<byte>, text: seq<byte>)

  /** The characters before the first equals sign. */
  function BeforeEquals(t: seq<byte>): (k: nat)
    ensures k <= |t|
  {
    if t == [] || t[0] == EQUALS then 0 else 1 + BeforeEquals(t[1..])
  }

  function SplitOf(line: seq<byte>): CommandLine {
    if !(BASE <= line) then NoCommand
    else if |line| == |BASE| then Attention
    else
      var rest := line[|BASE|..];
      var k := BeforeEquals(rest);
      if k == |rest| then NoArguments(rest) else Arguments(rest[..k], rest[k + 1..])
  }

  // ----- What the name asks for -----

  /** Everything, a value, or help: a name may end in a question mark or in a slash and a question mark. */
  datatype Request = Plain | Read | Help

  predicate MarkAt(t: seq<byte>, i: nat) {
    i + 1 < |t| && t[i] == SLASH && t[i + 1] == QUESTION
  }

  /** Where `strstr` finds a slash and a question mark, or the end. */
  function FindMark(t: seq<byte>): (k: nat)
    ensures k <= |t| && (k < |t| ==> MarkAt(t, k))
  {
    if t == [] || MarkAt(t, 0) then 0 else 1 + FindMark(t[1..])
  }

  function RequestOf(name: seq<byte>): Request {
    var k := FindMark(name);
    if k < |name| then if k + 2 == |name| then Help else Plain
    else if |name| > 1 && name[|name| - 1] == QUESTION then Read
    else Plain
  }

  /** The name without its mark. */
  function NameOf(name: seq<byte>): seq<byte> {
    match RequestOf(name)
    case Plain => name
    case Read => if name == [] then [] else name[..|name| - 1]
    case Help => name[..FindMark(name)]
  }

  lemma {:induction false} FirstMark(t: seq<byte>, i: nat)
    ensures i < FindMark(t) ==> !MarkAt(t, i)
    ensures MarkAt(t, i) ==> FindMark(t) <= i
  {
    if t != [] && i > 0 {
      FirstMark(t[1..], i - 1);
      assert MarkAt(t[1..], i - 1) <==> MarkAt(t, i);
    }
  }

  /** Help is asked for exactly when a slash and a question mark stand at the end and nowhere else, a value exactly when they
      stand nowhere and the name, not the question mark alone, ends in one. */
  lemma RequestIs(name: seq<byte>)
    ensures RequestOf(name) == Help <==> exists k: nat :: MarkAt(name, k) && k + 2 == |name| && forall i: nat :: i < k ==> !MarkAt(name, i)
    ensures RequestOf(name) == Read <==> |name| > 1 && name[|name| - 1] == QUESTION && forall i: nat :: !MarkAt(name, i)
  {
    forall i: nat ensures i < FindMark(name) ==> !MarkAt(name, i) && (MarkAt(name, i) ==> FindMark(name) <= i) {
      FirstMark(name, i);
    }
    if MarkAt(name, FindMark(name)) {
    } else {
      forall i: nat ensures !MarkAt(name, i) {
        FirstMark(name, i);
      }
    }
    forall k: nat | MarkAt(name, k) ensures FindMark(name) <= k {
      FirstMark(name, k);
    }
  }

  // ----- What is done about a line -----

  /** Refused, answered itself, help on a command, a command without parameters, one with, or no report at all. */
  datatype Action =
    | Refused
    | Answered
    | ShowHelp(name: seq<byte>)
    | Execute(name: seq<byte>)
    | ExecuteWith(name: seq<byte>, text: seq<byte>)
    | TooLong

  /** The limit on scanning loses one place at the equals sign, so that the longest line there is room for has too long arguments. */
  function Chosen(name: seq<byte>, text: seq<byte>, length: nat): Action {
    if RequestOf(name) == Help || (text != [] && text[0] == QUESTION) then ShowHelp(NameOf(name))
    else if text == [] || RequestOf(name) == Read then Execute(NameOf(name))
    else if length + 1 >= COMMAND_SIZE then TooLong
    else ExecuteWith(name, text)
  }

  function ActionOf(line: seq<byte>): Action {
    match SplitOf(line)
    case NoCommand => Refused
    case Attention => Answered
    case NoArguments(name) => Chosen(name, [], |line|)
    case Arguments(name, text) => Chosen(name, text, |line|)
  }

  /** The command buffer afterwards: the equals sign is a NUL, and so is the mark that has been taken off the name. */
  function Unmarked(memory: seq<byte>, name: seq<byte>): seq<byte>
    requires |BASE| + |name| <= |memory|
  {
    if RequestOf(name) == Plain then memory else memory[|BASE| + |NameOf(name)| := NUL]
  }

  function Divided(memory: seq<byte>, line: seq<byte>): seq<byte>
    requires |line| < |memory|
  {
    match SplitOf(line)
    case NoCommand => memory
    case Attention => memory
    case NoArguments(name) => Unmarked(memory, name)
    case Arguments(name, _) => Unmarked(memory[|BASE| + |name| := NUL], name)
  }

  lemma {:induction false} BeforeEqualsStep(t: seq<byte>, k: nat)
    requires k < |t| && k <= BeforeEquals(t)
    ensures t[k] == EQUALS <==> BeforeEquals(t) == k
  {
    if k > 0 {
      BeforeEqualsStep(t[1..], k - 1);
    }
  }

  datatype Found = NotAt | OnlyAt | Name | NameAndArguments

  /** Splits a NUL-terminated line in place; `pCmdLine` is where the arguments begin, or the end. The two loops over the line
      count down one limit. */
  method SplitCommandLine(line: array<byte>, ghost length: nat) returns (found: Found, pCmdLine: nat, maxCmdLen: int)
    requires length < line.Length == COMMAND_SIZE && line[length] == NUL && NulFree(line[..length])
    modifies line
    ensures match SplitOf(old(line[..length]))
            case NoCommand => found == NotAt && line[..] == old(line[..])
            case Attention => found == OnlyAt && line[..] == old(line[..])
            case NoArguments(name) =>
              found == Name && pCmdLine == length == |BASE| + |name| && line[..] == old(line[..])
            case Arguments(name, _) =>
              && found == NameAndArguments && pCmdLine == |BASE| + |name| + 1 <= length
              && maxCmdLen == COMMAND_SIZE - pCmdLine - 1 && line[..] == old(line[..])[pCmdLine - 1 := NUL]
  {
    hide BeforeEquals, NulFree;
    pCmdLine, maxCmdLen := |BASE|, COMMAND_SIZE - |BASE|;
    ghost var text := line[..length];
    Characters(text);
    if line[0] != BASE[0] || line[1] != BASE[1] {
      return NotAt, pCmdLine, maxCmdLen;
    }
    if line[2] == NUL {
      return OnlyAt, pCmdLine, maxCmdLen;
    }
    ghost var rest := text[|BASE|..];
    while maxCmdLen != 0
      invariant |BASE| <= pCmdLine <= length && maxCmdLen == COMMAND_SIZE - pCmdLine
      invariant line[..] == old(line[..]) && pCmdLine - |BASE| <= BeforeEquals(rest)
      decreases maxCmdLen
    {
      maxCmdLen := maxCmdLen - 1;
      if pCmdLine < length {
        BeforeEqualsStep(rest, pCmdLine - |BASE|);
        assert line[pCmdLine] == text[pCmdLine] == rest[pCmdLine - |BASE|];
      }
      if line[pCmdLine] == EQUALS {
        line[pCmdLine] := NUL;
        return NameAndArguments, pCmdLine + 1, maxCmdLen - 1;
      }
      if line[pCmdLine] == NUL {
        break;
      }
      pCmdLine := pCmdLine + 1;
    }
    return Name, pCmdLine, maxCmdLen;
  }

  /** Takes the mark off the name that stands, as a C string, behind `AT`. */
  method TakeRequest(line: array<byte>, ghost name: seq<byte>) returns (request: Request)
    requires |BASE| + |name| < line.Length && line[|BASE|..|BASE| + |name|] == name
    requires line[|BASE| + |name|] == NUL && NulFree(name)
    modifies line
    ensures request == RequestOf(name) && line[..] == Unmarked(old(line[..]), name)
  {
    hide FindMark, NulFree;
    ghost var end := |BASE| + |name|;
    Characters(name);
    assert forall i :: |BASE| <= i < end ==> line[i] == name[i - |BASE|];
    var pSrchStr: nat := |BASE|;
    assert name[0..] == name;
    while line[pSrchStr] != NUL && !(line[pSrchStr] == SLASH && line[pSrchStr + 1] == QUESTION)
      invariant |BASE| <= pSrchStr <= end && pSrchStr - |BASE| <= FindMark(name) && line[..] == old(line[..])
      decreases end - pSrchStr
    {
      NotHere(name, pSrchStr - |BASE|);
      pSrchStr := pSrchStr + 1;
    }
    if line[pSrchStr] != NUL {
      FirstMark(name, pSrchStr - |BASE|);
      if line[pSrchStr + 2] == NUL {
        line[pSrchStr] := NUL;
        return Help;
      }
      return Plain;
    }
    var cmdStrLen := pSrchStr - |BASE|;
    if cmdStrLen > 1 && line[pSrchStr - 1] == QUESTION {
      line[pSrchStr - 1] := NUL;
      return Read;
    }
    return Plain;
  }

  lemma NotHere(t: seq<byte>, k: nat)
    requires k < |t| && k <= FindMark(t) && !MarkAt(t, k)
    ensures k + 1 <= FindMark(t)
  {
  }

  /** What stands up to a NUL is the C string there. */
  lemma {:induction false} StringAt(memory: seq<byte>, t: seq<byte>)
    requires |t| < |memory| && memory[..|t|] == t && memory[|t|] == NUL && NulFree(t)
    ensures CString(memory) == t
  {
    if t != [] {
      assert memory[0] == t[0];
      assert memory[1..][..|t| - 1] == t[1..];
      StringAt(memory[1..], t[1..]);
    }
  }

  lemma Characters(t: seq<byte>)
    requires NulFree(t)
    ensures forall i :: 0 <= i < |t| ==> t[i] != NUL
  {
  }

  lemma PartsNulFree(t: seq<byte>, k: nat)
    requires NulFree(t) && k <= |t|
    ensures NulFree(t[..k]) && NulFree(t[k..]) && (|BASE| <= k ==> NulFree(t[|BASE|..k])) && (k < |t| ==> NulFree(t[k + 1..]))
  {
  }

  lemma NameIsPrefix(name: seq<byte>)
    ensures NameOf(name) <= name
    ensures if RequestOf(name) == Plain then NameOf(name) == name else |NameOf(name)| < |name|
  {
    hide FindMark;
  }

  /** Without its mark the name is the C string behind `AT`; what follows the name is untouched. */
  lemma NameStands(before: seq<byte>, after: seq<byte>, name: seq<byte>)
    requires |BASE| + |name| < |before| && before[|BASE|..|BASE| + |name|] == name
    requires before[|BASE| + |name|] == NUL && NulFree(name) && after == Unmarked(before, name)
    ensures CString(after[|BASE|..]) == NameOf(name)
    ensures |after| == |before| && after[|BASE| + |name|..] == before[|BASE| + |name|..]
  {
    hide RequestOf, NameOf, CString;
    NameIsPrefix(name);
    var cut := NameOf(name);
    var tail := after[|BASE|..];
    assert forall i :: 0 <= i < |cut| ==> tail[i] == before[|BASE| + i] == name[i] == cut[i];
    assert tail[..|cut|] == cut;
    assert NulFree(cut);
    StringAt(tail, cut);
  }

  /** Whether the end of the arguments is found within what is left of the limit. */
  method Measure(line: array<byte>, ghost length: nat, args: nat, limit: int) returns (fits: bool)
    requires |BASE| < args <= length < line.Length == COMMAND_SIZE && limit == COMMAND_SIZE - args - 1
    requires line[length] == NUL && NulFree(line[args..length])
    ensures fits <==> length + 1 < COMMAND_SIZE
  {
    Characters(line[args..length]);
    assert forall i :: args <= i < length ==> line[i] == line[args..length][i - args];
    var pSrchStr, maxCmdLen := args, limit;
    while maxCmdLen > 0
      invariant args <= pSrchStr <= length && maxCmdLen == COMMAND_SIZE - pSrchStr - 1
      decreases maxCmdLen
    {
      maxCmdLen := maxCmdLen - 1;
      if line[pSrchStr] == NUL {
        return true;
      }
      pSrchStr := pSrchStr + 1;
    }
    return false;
  }

  lemma RestStands(before: seq<byte>, after: seq<byte>, length: nat, end: nat, args: nat, rest: seq<byte>)
    requires end <= args <= length < |before| == |after| && after[end..] == before[end..]
    requires before[args..length] == rest && before[length] == NUL && NulFree(rest)
    ensures after[args..length] == rest && after[length] == NUL && CString(after[args..]) == rest
    ensures after[args] == NUL <==> rest == []
    ensures rest != [] ==> after[args] == rest[0]
  {
    hide CString;
    assert forall i :: end <= i < |after| ==> after[i] == after[end..][i - end] == before[i];
    assert after[args..length] == rest;
    if rest != [] {
      Characters(rest);
      assert after[args] == after[args..length][0];
    } else {
      assert args == length;
    }
    var tail := after[args..];
    assert tail[..|rest|] == rest && tail[|rest|] == NUL;
    StringAt(tail, rest);
  }

  /** What is done about a name and its arguments, once they are apart. */
  method Choose(line: array<byte>, ghost length: nat, pCmdLine: nat, maxCmdLen: int, ghost name: seq<byte>, ghost rest: seq<byte>)
    returns (action: Action)
    requires |BASE| + |name| <= pCmdLine <= length < line.Length == COMMAND_SIZE && line[length] == NUL
    requires line[|BASE|..|BASE| + |name|] == name && line[|BASE| + |name|] == NUL && NulFree(name)
    requires line[pCmdLine..length] == rest && NulFree(rest)
    requires rest != [] ==> pCmdLine > |BASE| && maxCmdLen == COMMAND_SIZE - pCmdLine - 1
    modifies line
    ensures action == Chosen(name, rest, length) && line[..] == Unmarked(old(line[..]), name)
    ensures line[pCmdLine..length] == rest && line[length] == NUL
  {
    hide NulFree, CString, RequestOf, NameOf, Unmarked;
    ghost var memory := line[..];
    var request := TakeRequest(line, name);
    NameStands(memory, line[..], name);
    RestStands(memory, line[..], length, |BASE| + |name|, pCmdLine, rest);
    var pCmdName := CString(line[|BASE|..]);
    if request == Help || line[pCmdLine] == QUESTION {
      return ShowHelp(pCmdName);
    }
    if line[pCmdLine] == NUL || request == Read {
      return Execute(pCmdName);
    }
    var fits := Measure(line, length, pCmdLine, maxCmdLen);
    if !fits {
      return TooLong;
    }
    PlainName(name);
    return ExecuteWith(pCmdName, CString(line[pCmdLine..]));
  }

  lemma PlainName(name: seq<byte>)
    ensures RequestOf(name) == Plain ==> NameOf(name) == name
  {
  }

  /** `ATCMD_ParseCommandLine` as far as choosing what is done; the name is a command's, and `args` is where its arguments are. */
  method ParseCommandLine(line: array<byte>, ghost length: nat) returns (action: Action, args: nat)
    requires length < line.Length == COMMAND_SIZE && line[length] == NUL && NulFree(line[..length])
    modifies line
    ensures action == ActionOf(old(line[..length])) && line[..] == Divided(old(line[..]), old(line[..length]))
    ensures action.ExecuteWith? ==> args <= length && line[args..length] == action.text && line[length] == NUL
  {
    hide NulFree, Unmarked, Chosen;
    ghost var text := line[..length];
    var found, maxCmdLen;
    found, args, maxCmdLen := SplitCommandLine(line, length);
    if found == NotAt {
      return Refused, args;
    }
    if found == OnlyAt {
      return Answered, args;
    }
    ghost var split := SplitOf(text);
    ghost var name := split.name;
    ghost var rest := if split.Arguments? then split.text else [];
    ghost var end := |BASE| + |name|;
    SplitParts(text);
    PartsNulFree(text, end);
    assert line[|BASE|..end] == text[|BASE|..end] == name;
    assert line[args..length] == rest;
    action := Choose(line, length, args, maxCmdLen, name, rest);
    ChosenText(name, rest, length);
  }

  lemma SplitParts(line: seq<byte>)
    ensures SplitOf(line).NoArguments? ==> line == BASE + SplitOf(line).name
    ensures SplitOf(line).Arguments? ==> line == BASE + SplitOf(line).name + [EQUALS] + SplitOf(line).text
  {
    hide BeforeEquals;
    if BASE <= line {
      assert line == BASE + line[|BASE|..];
      BeforeEqualsIs(line[|BASE|..]);
    }
  }

  lemma {:induction false} BeforeEqualsIs(t: seq<byte>)
    ensures BeforeEquals(t) < |t| ==> t[BeforeEquals(t)] == EQUALS
  {
    if t != [] && t[0] != EQUALS {
      BeforeEqualsIs(t[1..]);
    }
  }

  lemma ChosenText(name: seq<byte>, text: seq<byte>, length: nat)
    ensures Chosen(name, text, length).ExecuteWith? ==> Chosen(name, text, length).text == text
  {
    hide RequestOf, NameOf;
  }

  lemma {:induction false} BeforeFirst(name: seq<byte>, rest: seq<byte>)
    requires EQUALS !in name
    ensures BeforeEquals(name + [EQUALS] + rest) == |name|
  {
    var t := name + [EQUALS] + rest;
    if name != [] {
      assert t[1..] == name[1..] + [EQUALS] + rest;
      BeforeFirst(name[1..], rest);
    }
  }

  /** A line with arguments splits at its first equals sign. */
  lemma ArgumentsSplit(name: seq<byte>, args: seq<byte>)
    requires EQUALS !in name
    ensures SplitOf(BASE + name + [EQUALS] + args) == Arguments(name, args)
  {
    hide BeforeEquals;
    var line := BASE + name + [EQUALS] + args;
    BeforeFirst(name, args);
    assert line[|BASE|..] == name + [EQUALS] + args;
    assert (name + [EQUALS] + args)[..|name|] == name && (name + [EQUALS] + args)[|name| + 1..] == args;
  }

  /** A slash and a question mark at the end, and nowhere else. */
  ghost predicate AsksForHelp(name: seq<byte>) {
    |name| >= 2 && HelpAt(name, |name| - 2) && forall i: nat :: i < |name| - 2 ==> !HelpAt(name, i)
  }

  predicate HelpAt(t: seq<byte>, i: nat) { i + 1 < |t| && t[i] == 47 && t[i + 1] == 63 }

  /** A question mark at the end, behind something, and no slash in front of any. */
  ghost predicate AsksForValue(name: seq<byte>) {
    |name| >= 2 && name[|name| - 1] == 63 && forall i: nat :: !HelpAt(name, i)
  }

  lemma MarksAgree(t: seq<byte>, i: nat)
    ensures HelpAt(t, i) <==> MarkAt(t, i)
  {
  }

  lemma RequestMeans(name: seq<byte>)
    ensures RequestOf(name) == Help <==> AsksForHelp(name)
    ensures RequestOf(name) == Read <==> AsksForValue(name)
    ensures NameOf(name) == if AsksForHelp(name) then name[..|name| - 2] else if AsksForValue(name) then name[..|name| - 1] else name
  {
    hide MarkAt, HelpAt;
    RequestIs(name);
    forall i: nat ensures HelpAt(name, i) <==> MarkAt(name, i) { MarksAgree(name, i); }
    if RequestOf(name) == Help {
      assert MarkAt(name, |name| - 2);
    }
    if AsksForHelp(name) {
      assert MarkAt(name, |name| - 2);
    }
  }

  /** What is done about any line, with arguments behind an equals sign (61) or without: a line that does not begin with `AT` is
      refused, `AT` alone is answered. */
  lemma ActionIs(name: seq<byte>, args: Option<seq<byte>>)
    requires 61 !in name && (name != [] || args.Some?)
    ensures var line := [65, 84] + name + (if args.Some? then [61] + args.value else []);
            var given := if args.Some? then args.value else [];
            ActionOf(line) ==
              if AsksForHelp(name) then ShowHelp(name[..|name| - 2])
              else if given != [] && given[0] == 63 then ShowHelp(if AsksForValue(name) then name[..|name| - 1] else name)
              else if AsksForValue(name) then Execute(name[..|name| - 1])
              else if given == [] then Execute(name)
              else if |line| >= 511 then TooLong
              else ExecuteWith(name, given)
  {
    hide RequestOf, NameOf, AsksForHelp, AsksForValue, BeforeEquals;
    RequestMeans(name);
    match args
    case Some(given) =>
      ArgumentsSplit(name, given);
      assert BASE + name + [EQUALS] + given == [65, 84] + name + ([61] + given);
    case None =>
      var line := [65, 84] + name;
      assert [65, 84] + name + [] == line && line[..2] == BASE && line[2..] == name;
      NoEquals(name);
  }

  lemma {:induction false} NoEquals(t: seq<byte>)
    requires EQUALS !in t
    ensures BeforeEquals(t) == |t|
  {
    if t != [] {
      NoEquals(t[1..]);
    }
  }

  lemma OtherLines(line: seq<byte>)
    ensures ActionOf(line) == Refused <==> |line| < 2 || line[0] != 65 || line[1] != 84
    ensures ActionOf(line) == Answered <==> line == [65, 84]
  {
    hide BeforeEquals, RequestOf, NameOf;
    if |line| >= 2 && line[0] == 65 && line[1] == 84 {
      assert line == BASE + line[2..];
    }
  }

  lemma JoinedIsNoQuestion(items: seq<Item>)
    requires items != []
    ensures JoinedText(items) != [] && JoinedText(items)[0] != QUESTION
  {
    hide Escapes, HexDigits;
    match items[0]
    case IntegerItem(n) => DigitsAreDigits(if n < 0 then -n else n);
    case EscapedItem(s) =>
    case HexItem(s) =>
  }

  /** On a new line, typing a command with any printed list for arguments, then a line feed, enters a line that splits into
      the command's name and exactly the typed list, and the list reads back; it begins one entry for each parameter. The
      command is given that list exactly when its name carries no question mark that asks for something else, and the line is
      not the longest the editor takes. */
  lemma TypedListIsParsed(s: Screen, name: seq<byte>, items: seq<Item>)
    requires Editing(s) && s.decoder.state == Ground && s.text == [] && s.pos == 0
    requires AllDisplayable(name) && EQUALS !in name
    requires items != [] && (forall i | 0 <= i < |items| :: Representable(items[i]))
    requires |BASE| + |name| + 1 + |JoinedText(items)| < COMMAND_SIZE
    ensures var line := BASE + name + [EQUALS] + JoinedText(items);
            var (r, e) := Steps(s, line + [LINE_FEED]);
            && e == EndOfLine && r.text == line
            && SplitOf(r.text) == Arguments(name, JoinedText(items))
            && ActionOf(r.text) == (match RequestOf(name)
                                    case Help => ShowHelp(NameOf(name))
                                    case Read => Execute(NameOf(name))
                                    case Plain => if |line| == COMMAND_SIZE - 1 then TooLong else ExecuteWith(name, JoinedText(items)))
            && AtParameters.Parameters(JoinedText(items)) == Some(ItemParams(items))
            && AtParameters.Entries(FRESH, JoinedText(items)) == |items|
  {
    hide Steps, Editing, JoinedText, Scan, Representable, SplitOf, AtParameters.Entries, RequestOf;
    var text := JoinedText(items);
    var line := BASE + name + [EQUALS] + text;
    ListRoundTrip(items);
    assert |ItemParams(items)| == |items|;
    EntriesAreParameters(FRESH, text);
    JoinedIsDisplayable(items);
    JoinedIsNoQuestion(items);
    assert IsDisplayable(0x41) && IsDisplayable(0x54) && IsDisplayable(EQUALS);
    TypedLineIsEntered(s, line);
    ArgumentsSplit(name, text);
  }
}
