/**
 The tree firmware/src/cJSON.c works on, numbers as text, and the text the printers produce.
 */
module JsonValue {
  import opened Bytes

  datatype Value =
    | Null
    | False
    | True
    | Number(value: real)
    | String(text: seq<byte>)
    | Array(items: seq<Value>)
    | Object(members: seq<Member>)

  datatype Member = Member(key: seq<byte>, value: Value)

  /** The greatest `int`. */
  const INT_MAX: nat := 0x7FFF_FFFF

  // ----- Numbers -----

  /** Decimal digits of `n`, most significant first. */
  function Digits(n: nat): (t: seq<byte>)
    ensures |t| > 0
  {
    if n < 10 then [ZERO + n] else Digits(n / 10) + [ZERO + n % 10]
  }

  /** `%1.15g` of an integer below 10^15. */
  function IntegerText(n: int): seq<byte> {
    if n < 0 then [MINUS] + Digits(-n) else Digits(n)
  }

  const INTEGER_LIMIT: int := 1_000_000_000_000_000

  /** The numbers `%1.15g` prints as plain decimals: the integers of at most 15 digits. */
  ghost predicate PlainInteger(r: real) {
    r == r.Floor as real && -INTEGER_LIMIT < r.Floor < INTEGER_LIMIT
  }

  lemma {:induction false} DigitsNulFree(n: nat)
    ensures NulFree(Digits(n))
  {
    if n >= 10 {
      DigitsNulFree(n / 10);
    }
  }

  function Pow10(n: nat): (r: int)
    ensures r >= 1
  {
    if n == 0 then 1 else 10 * Pow10(n - 1)
  }

  lemma {:induction false} DigitsLength(n: nat, k: nat)
    requires n < Pow10(k) && k > 0
    ensures |Digits(n)| <= k
    decreases k
  {
    if n >= 10 {
      assert n / 10 < Pow10(k - 1);
      DigitsLength(n / 10, k - 1);
    }
  }

  lemma IntegerTextLength(n: int)
    requires -INTEGER_LIMIT < n < INTEGER_LIMIT
    ensures 1 <= |IntegerText(n)| <= 16
  {
    assert Pow10(5) == 100_000 && Pow10(10) == 100_000 * Pow10(5) && Pow10(15) == 100_000 * Pow10(10);
    DigitsLength(if n < 0 then -n else n, 15);
  }

  // ----- Strings -----

  function HexChar(d: nat): (b: byte)
    requires d < 16
    ensures HexDigit(b) == d && b != QUOTE && b != BACKSLASH && b != NUL
  {
    if d < 10 then ZERO + d else LOWER_A + d - 10
  }

  /** What `print_string_ptr` writes for one byte. */
  function EscapeByte(b: byte): (t: seq<byte>)
    ensures |t| in {1, 2, 6}
  {
    if b > 31 && b != QUOTE && b != BACKSLASH then [b]
    else if b == BACKSLASH then [BACKSLASH, BACKSLASH]
    else if b == QUOTE then [BACKSLASH, QUOTE]
    else if b == BACKSPACE then [BACKSLASH, LOWER_B]
    else if b == FORM_FEED then [BACKSLASH, LOWER_F]
    else if b == LINE_FEED then [BACKSLASH, LOWER_N]
    else if b == RETURN then [BACKSLASH, LOWER_R]
    else if b == TAB then [BACKSLASH, LOWER_T]
    else [BACKSLASH, LOWER_U, ZERO, ZERO, HexChar(b / 16), HexChar(b % 16)]
  }

  /** Only what has to be is escaped: quote (34), backslash (92) and bytes below 32, those with a letter by it, and the others by
      four lower-case digits. */
  lemma EscapeIs(b: byte)
    ensures EscapeByte(b) ==
      if b == 34 || b == 92 then [92, b]
      else if b >= 32 then [b]
      else if b == 8 then [92, 98]
      else if b == 9 then [92, 116]
      else if b == 10 then [92, 110]
      else if b == 12 then [92, 102]
      else if b == 13 then [92, 114]
      else
        var digits: seq<byte> := [48, 49, 50, 51, 52, 53, 54, 55, 56, 57, 97, 98, 99, 100, 101, 102];
        [92, 117, 48, 48, digits[b / 16], digits[b % 16]]
  {
    if b < 16 {
      assert b / 16 == 0 && b % 16 == b;
    } else if b < 32 {
      assert b / 16 == 1 && b % 16 == b - 16;
    }
  }

  function EscapeText(s: seq<byte>): seq<byte> {
    if s == [] then [] else EscapeByte(s[0]) + EscapeText(s[1..])
  }

  function Quoted(s: seq<byte>): (t: seq<byte>)
    ensures |t| >= 2
  {
    [QUOTE] + EscapeText(s) + [QUOTE]
  }

  // ----- Whole trees -----

  const NULL_TEXT: seq<byte> := [0x6E, 0x75, 0x6C, 0x6C]
  const FALSE_TEXT: seq<byte> := [0x66, 0x61, 0x6C, 0x73, 0x65]
  const TRUE_TEXT: seq<byte> := [0x74, 0x72, 0x75, 0x65]

  function Tabs(n: nat): (t: seq<byte>)
    ensures |t| == n && forall i :: 0 <= i < n ==> t[i] == TAB
  {
    seq(n, i => TAB)
  }

  /** The text of `v`, nested `depth` deep, formatted or not. */
  function Text(v: Value, format: bool, depth: nat): (t: seq<byte>)
    ensures |t| > 0
    decreases v, 1
  {
    match v
    case Null => NULL_TEXT
    case False => FALSE_TEXT
    case True => TRUE_TEXT
    case Number(r) => IntegerText(r.Floor)
    case String(s) => Quoted(s)
    case Array(items) => [LEFT_BRACKET] + ItemsText(items, format, depth + 1) + [RIGHT_BRACKET]
    case Object(members) =>
      OpenObject(format) + MembersText(members, format, depth + 1)
      + CloseObject(format, depth)
  }

  function OpenObject(format: bool): seq<byte> {
    if format then [LEFT_BRACE, LINE_FEED] else [LEFT_BRACE]
  }

  /** What an object nested `d` deep ends with. */
  function CloseObject(format: bool, d: nat): (t: seq<byte>)
    ensures |t| == if format then d + 1 else 1
  {
    (if format then Tabs(d) else []) + [RIGHT_BRACE]
  }

  function Separator(format: bool): seq<byte> {
    if format then [COMMA, SPACE] else [COMMA]
  }

  function ItemsText(items: seq<Value>, format: bool, depth: nat): seq<byte>
    decreases items, 0
  {
    if items == [] then []
    else Text(items[0], format, depth)
         + (if |items| > 1 then Separator(format) else [])
         + ItemsText(items[1..], format, depth)
  }

  function ColonText(format: bool): seq<byte> {
    if format then [COLON, TAB] else [COLON]
  }

  function EndMember(format: bool, last: bool): seq<byte> {
    (if last then [] else [COMMA]) + (if format then [LINE_FEED] else [])
  }

  function MemberText(m: Member, format: bool, depth: nat, last: bool): seq<byte>
    decreases m, 2
  {
    (if format then Tabs(depth) else []) + Quoted(m.key) + ColonText(format)
    + Text(m.value, format, depth) + EndMember(format, last)
  }

  function MembersText(members: seq<Member>, format: bool, depth: nat): seq<byte>
    decreases members, 0
  {
    if members == [] then []
    else MemberText(members[0], format, depth, |members| == 1) + MembersText(members[1..], format, depth)
  }

  // ----- The trees the printers are defined on -----

  /** Strings and keys are C strings, numbers are integers of at most 15 digits. */
  ghost predicate Printable(v: Value) {
    match v
    case Null => true
    case False => true
    case True => true
    case Number(r) => PlainInteger(r)
    case String(s) => NulFree(s)
    case Array(items) => forall i :: 0 <= i < |items| ==> Printable(items[i])
    case Object(members) => forall i :: 0 <= i < |members| ==> NulFree(members[i].key) && Printable(members[i].value)
  }

  /** How many containers deep the tree is. */
  function Nesting(v: Value): nat
    decreases v, 1
  {
    match v
    case Array(items) => 1 + ItemsNesting(items)
    case Object(members) => 1 + MembersNesting(members)
    case _ => 0
  }

  function Max(a: nat, b: nat): nat { if a < b then b else a }

  function ItemsNesting(items: seq<Value>): nat
    decreases items, 0
  {
    if items == [] then 0 else Max(Nesting(items[0]), ItemsNesting(items[1..]))
  }

  function MembersNesting(members: seq<Member>): nat
    decreases members, 0
  {
    if members == [] then 0 else Max(Nesting(members[0].value), MembersNesting(members[1..]))
  }

  // ----- No text contains a NUL -----

  lemma {:induction false} EscapeTextNulFree(s: seq<byte>)
    requires NulFree(s)
    ensures NulFree(EscapeText(s)) && NulFree(Quoted(s))
  {
    if s != [] {
      EscapeTextNulFree(s[1..]);
      assert NulFree(EscapeByte(s[0]));
    }
  }

  lemma {:induction false} TextNulFree(v: Value, format: bool, depth: nat)
    requires Printable(v)
    ensures NulFree(Text(v, format, depth))
    decreases v, 1
  {
    match v
    case Null =>
    case False =>
    case True =>
    case Number(r) => DigitsNulFree(if r.Floor < 0 then -r.Floor else r.Floor);
    case String(s) => EscapeTextNulFree(s);
    case Array(items) => ItemsTextNulFree(items, format, depth + 1);
    case Object(members) => MembersTextNulFree(members, format, depth + 1);
  }

  lemma {:induction false} ItemsTextNulFree(items: seq<Value>, format: bool, depth: nat)
    requires forall i :: 0 <= i < |items| ==> Printable(items[i])
    ensures NulFree(ItemsText(items, format, depth))
    decreases items, 0
  {
    hide Text, Printable;
    if items != [] {
      TextNulFree(items[0], format, depth);
      ItemsTextNulFree(items[1..], format, depth);
    }
  }

  lemma {:induction false} MembersTextNulFree(members: seq<Member>, format: bool, depth: nat)
    requires forall i :: 0 <= i < |members| ==> NulFree(members[i].key) && Printable(members[i].value)
    ensures NulFree(MembersText(members, format, depth))
    decreases members, 0
  {
    hide Text, Printable, Quoted;
    if members != [] {
      EscapeTextNulFree(members[0].key);
      TextNulFree(members[0].value, format, depth);
      MembersTextNulFree(members[1..], format, depth);
    }
  }
}
