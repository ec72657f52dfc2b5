/**
 IPv4 addresses as text, as firmware/src/at_cmd_engine/at_cmds/at_cmd_inet.c reads and writes them.
 The first number of the text is the lowest byte of the 32-bit value.
 */
module Inet {
  import opened Bytes
  import opened JsonValue

  const TOP_BYTE := 0x100_0000
  const ADDRESS_LIMIT := 0x1_0000_0000

  // ----- The text -----

  /** Numbers with dots between them. */
  function Joined(ns: seq<nat>): seq<byte> {
    if ns == [] then []
    else if |ns| == 1 then Digits(ns[0])
    else Digits(ns[0]) + [DOT] + Joined(ns[1..])
  }

  function Octets(ip: nat): (ns: seq<nat>)
    ensures |ns| == 4
  {
    [ip % 256, ip / 256 % 256, ip / 256 / 256 % 256, ip / 256 / 256 / 256 % 256]
  }

  /** The dotted form of an address. */
  function AddressText(ip: nat): seq<byte> {
    Joined(Octets(ip))
  }

  // ----- What the reader computes -----

  predicate Delimits(c: byte) {
    c == DOT || c == NUL
  }

  /** How many characters stand before a delimiter, at most 4. */
  function GroupLength(text: seq<byte>, p: nat, l: nat): (n: nat)
    requires l <= 4
    ensures l <= n <= 4
    decreases 4 - l
  {
    if l == 4 || Delimits(Peek(text, p + l)) then l else GroupLength(text, p, l + 1)
  }

  /** The decimal number in `l` characters, or none if one of them is no digit. */
  function Decimal(text: seq<byte>, p: nat, l: nat, t: nat): Option<nat>
    decreases l
  {
    if l == 0 then Some(t)
    else if !IsDigit(Peek(text, p)) then None
    else Decimal(text, p + 1, l - 1, t * 10 + (Peek(text, p) - ZERO))
  }

  /** One number of the text: one to three digits, no leading zero, less than 256. */
  function Group(text: seq<byte>, p: nat): Option<nat> {
    var l := GroupLength(text, p, 0);
    if l == 0 || l == 4 || (l > 1 && Peek(text, p) == ZERO) then None
    else
      var t := Decimal(text, p, l, 0);
      if t.None? || t.value > 255 then None else t
  }

  /** The address from its group i on, packed on top of what is there; 0 for any error. */
  function AddressFrom(text: seq<byte>, i: nat, p: nat, ip: nat): nat
    decreases 4 - i
  {
    if i >= 4 then ip
    else
      var t := Group(text, p);
      var l := GroupLength(text, p, 0);
      if t.None? || (Peek(text, p + l) == NUL) != (i == 3) then 0
      else AddressFrom(text, i + 1, p + l + 1, ip / 256 + t.value * TOP_BYTE)
  }

  function Address(text: seq<byte>): nat {
    AddressFrom(text, 0, 0, 0)
  }

  // ----- One number -----

  lemma DigitsOfSmall(n: nat)
    requires n < 256
    ensures Digits(n) == if n < 10 then [ZERO + n]
                         else if n < 100 then [ZERO + n / 10, ZERO + n % 10]
                         else [ZERO + n / 100, ZERO + n / 10 % 10, ZERO + n % 10]
  {
    if 10 <= n < 100 {
      assert Digits(n / 10) == [ZERO + n / 10];
    } else if n >= 100 {
      assert Digits(n / 10 / 10) == [ZERO + n / 100];
      assert Digits(n / 10) == [ZERO + n / 100] + [ZERO + n / 10 % 10];
    }
  }

  lemma OneDigitRead(text: seq<byte>, p: nat, a: nat)
    requires a < 10 && Peek(text, p) == ZERO + a && Delimits(Peek(text, p + 1))
    ensures GroupLength(text, p, 0) == 1 && Group(text, p) == Some(a)
  {
    hide Peek;
    GroupUnrolled(text, p);
    DecimalUnrolled(text, p, 1);
  }

  lemma TwoDigitsRead(text: seq<byte>, p: nat, a: nat, b: nat)
    requires 0 < a < 10 && b < 10
    requires Peek(text, p) == ZERO + a && Peek(text, p + 1) == ZERO + b && Delimits(Peek(text, p + 2))
    ensures GroupLength(text, p, 0) == 2 && Group(text, p) == Some(10 * a + b)
  {
    hide Peek;
    GroupUnrolled(text, p);
    DecimalUnrolled(text, p, 2);
  }

  lemma ThreeDigitsRead(text: seq<byte>, p: nat, a: nat, b: nat, c: nat)
    requires 0 < a < 10 && b < 10 && c < 10 && 100 * a + 10 * b + c < 256
    requires Peek(text, p) == ZERO + a && Peek(text, p + 1) == ZERO + b && Peek(text, p + 2) == ZERO + c
    requires Delimits(Peek(text, p + 3))
    ensures GroupLength(text, p, 0) == 3 && Group(text, p) == Some(100 * a + 10 * b + c)
  {
    hide Peek;
    GroupUnrolled(text, p);
    DecimalUnrolled(text, p, 3);
  }

  /** A number in its decimal form, with a delimiter behind it, is read as that number. */
  lemma DigitsAreRead(text: seq<byte>, p: nat, n: nat)
    requires n < 256 && At(text, p, Digits(n)) && Delimits(Peek(text, p + |Digits(n)|))
    ensures GroupLength(text, p, 0) == |Digits(n)| && Group(text, p) == Some(n)
  {
    hide Digits, At, GroupLength, Group, Delimits;
    DigitsOfSmall(n);
    var t := Digits(n);
    AtIndex(text, p, t, 0);
    if n < 10 {
      OneDigitRead(text, p, n);
    } else if n < 100 {
      AtIndex(text, p, t, 1);
      TwoDigitsRead(text, p, n / 10, n % 10);
    } else {
      AtIndex(text, p, t, 1);
      AtIndex(text, p, t, 2);
      ThreeDigitsRead(text, p, n / 100, n / 10 % 10, n % 10);
    }
  }

  lemma DecimalUnrolled(text: seq<byte>, p: nat, l: nat)
    requires 1 <= l <= 3
    ensures Decimal(text, p, l, 0)
         == if (forall k | p <= k < p + l :: IsDigit(Peek(text, k))) then
              Some(if l == 1 then Peek(text, p) - ZERO
                   else if l == 2 then 10 * (Peek(text, p) - ZERO) + (Peek(text, p + 1) - ZERO)
                   else 100 * (Peek(text, p) - ZERO) + 10 * (Peek(text, p + 1) - ZERO) + (Peek(text, p + 2) - ZERO))
            else None
  {
  }

  lemma GroupUnrolled(text: seq<byte>, p: nat)
    ensures GroupLength(text, p, 0)
         == if Delimits(Peek(text, p)) then 0 else if Delimits(Peek(text, p + 1)) then 1
            else if Delimits(Peek(text, p + 2)) then 2 else if Delimits(Peek(text, p + 3)) then 3 else 4
  {
    assert GroupLength(text, p, 4) == 4;
    assert GroupLength(text, p, 3) == if Delimits(Peek(text, p + 3)) then 3 else 4;
    assert GroupLength(text, p, 2) == if Delimits(Peek(text, p + 2)) then 2 else GroupLength(text, p, 3);
  }

  lemma OneDigitIs(text: seq<byte>, p: nat)
    requires Decimal(text, p, 1, 0).Some?
    ensures At(text, p, Digits(Decimal(text, p, 1, 0).value)) && |Digits(Decimal(text, p, 1, 0).value)| == 1
  {
    DecimalUnrolled(text, p, 1);
    assert IsDigit(Peek(text, p));
    assert text[p..p + 1] == [Peek(text, p)];
  }

  lemma TwoDigitsAre(text: seq<byte>, p: nat)
    requires Decimal(text, p, 2, 0).Some? && Peek(text, p) != ZERO
    ensures At(text, p, Digits(Decimal(text, p, 2, 0).value)) && |Digits(Decimal(text, p, 2, 0).value)| == 2
  {
    hide Digits, Decimal;
    var n := Decimal(text, p, 2, 0).value;
    DecimalUnrolled(text, p, 2);
    assert IsDigit(Peek(text, p)) && IsDigit(Peek(text, p + 1));
    DigitsOfSmall(n);
    assert text[p..p + 2] == [ZERO + n / 10, ZERO + n % 10];
  }

  lemma ThreeDigitsAre(text: seq<byte>, p: nat)
    requires Decimal(text, p, 3, 0).Some? && Decimal(text, p, 3, 0).value < 256 && Peek(text, p) != ZERO
    ensures At(text, p, Digits(Decimal(text, p, 3, 0).value)) && |Digits(Decimal(text, p, 3, 0).value)| == 3
  {
    hide Digits, Decimal;
    var n := Decimal(text, p, 3, 0).value;
    DecimalUnrolled(text, p, 3);
    assert IsDigit(Peek(text, p)) && IsDigit(Peek(text, p + 1)) && IsDigit(Peek(text, p + 2));
    DigitsOfSmall(n);
    assert text[p..p + 3] == [ZERO + n / 100, ZERO + n / 10 % 10, ZERO + n % 10];
  }

  /** What is read as a number is its decimal form. */
  lemma ReadIsDigits(text: seq<byte>, p: nat)
    requires Group(text, p).Some?
    ensures Group(text, p).value < 256
    ensures |Digits(Group(text, p).value)| == GroupLength(text, p, 0) && At(text, p, Digits(Group(text, p).value))
    ensures p + GroupLength(text, p, 0) <= |text| && text[p..p + GroupLength(text, p, 0)] == Digits(Group(text, p).value)
  {
    hide Digits, GroupLength, Decimal, Peek;
    var l := GroupLength(text, p, 0);
    if l == 1 {
      OneDigitIs(text, p);
    } else if l == 2 {
      TwoDigitsAre(text, p);
    } else {
      ThreeDigitsAre(text, p);
    }
  }

  // ----- Whole addresses -----

  predicate AllOctets(ns: seq<nat>) {
    forall k | 0 <= k < |ns| :: ns[k] < 256
  }

  /** Each number goes to the top while the earlier ones move down a byte. */
  function Packed(ip: nat, ns: seq<nat>): nat
    decreases |ns|
  {
    if ns == [] then ip else Packed(ip / 256 + ns[0] * TOP_BYTE, ns[1..])
  }

  /** The remaining numbers of a text are read and packed. */
  lemma {:induction false} JoinedIsRead(text: seq<byte>, p: nat, ip: nat, ns: seq<nat>)
    requires NulFree(text) && |ns| <= 4 && AllOctets(ns) && p <= |text|
    requires ns != [] ==> text[p..] == Joined(ns)
    ensures AddressFrom(text, 4 - |ns|, p, ip) == Packed(ip, ns)
    decreases |ns|
  {
    hide Digits, Group, GroupLength, Peek;
    if ns != [] {
      var t := Digits(ns[0]);
      NumberStands(text, p, ns);
      DigitsAreRead(text, p, ns[0]);
      if |ns| > 1 {
        assert text[p..][|t| + 1..] == Joined(ns[1..]);
        assert text[p + |t| + 1..] == text[p..][|t| + 1..];
        JoinedIsRead(text, p + |t| + 1, ip / 256 + ns[0] * TOP_BYTE, ns[1..]);
      }
    }
  }

  lemma NumberStands(text: seq<byte>, p: nat, ns: seq<nat>)
    requires NulFree(text) && ns != [] && p <= |text| && text[p..] == Joined(ns)
    ensures At(text, p, Digits(ns[0])) && p + |Digits(ns[0])| <= |text|
    ensures Peek(text, p + |Digits(ns[0])|) == if |ns| == 1 then NUL else DOT
    ensures |ns| > 1 ==> p + |Digits(ns[0])| + 1 <= |text|
  {
    hide Digits, Joined, NulFree;
    var t, later := Digits(ns[0]), ns[1..];
    assert ns == [ns[0]] + later;
    if |ns| == 1 {
      JoinedOne(ns[0]);
      assert ns == [ns[0]];
      StandsBefore(text, p, t, []);
    } else {
      JoinedCons(ns[0], later);
      assert t + [DOT] + Joined(later) == t + ([DOT] + Joined(later));
      StandsBefore(text, p, t, [DOT] + Joined(later));
      assert text[p + |t|] == text[p..][|t|];
    }
  }

  lemma StandsBefore(text: seq<byte>, p: nat, t: seq<byte>, rest: seq<byte>)
    requires p <= |text| && text[p..] == t + rest
    ensures At(text, p, t) && |text| == p + |t| + |rest|
  {
    assert text[p..p + |t|] == text[p..][..|t|];
  }

  /** Whatever is read without an error is a dotted list of numbers, packed. */
  lemma {:induction false} ReadIsJoined(text: seq<byte>, i: nat, p: nat, ip: nat) returns (ns: seq<nat>)
    requires NulFree(text) && i < 4 && p <= |text| && AddressFrom(text, i, p, ip) != 0
    ensures |ns| == 4 - i && AllOctets(ns)
    ensures text[p..] == Joined(ns) && AddressFrom(text, i, p, ip) == Packed(ip, ns)
    decreases 4 - i
  {
    hide Digits, Group, GroupLength, Joined, At, NulFree, Delimits, Peek;
    var n, l := Group(text, p).value, GroupLength(text, p, 0);
    ReadIsDigits(text, p);
    DelimiterFollows(text, p);
    if i < 3 {
      NoZeroDelimiter(text, p + l);
    }
    if i == 3 {
      ns := [n];
      JoinedOne(n);
      assert text[p..] == text[p..p + l];
      PackedOne(ip, n);
    } else {
      var later := ReadIsJoined(text, i + 1, p + l + 1, ip / 256 + n * TOP_BYTE);
      ns := [n] + later;
      assert ns[1..] == later;
      JoinedCons(n, later);
      Resume(text, p, l);
    }
  }

  lemma NoZeroDelimiter(text: seq<byte>, q: nat)
    requires Delimits(Peek(text, q)) && Peek(text, q) != NUL
    ensures q < |text| && text[q] == DOT
  {
  }

  lemma JoinedOne(n: nat)
    ensures Joined([n]) == Digits(n)
  {
    hide Digits;
  }

  lemma JoinedCons(n: nat, ns: seq<nat>)
    requires ns != []
    ensures Joined([n] + ns) == Digits(n) + [DOT] + Joined(ns)
  {
    hide Digits;
    assert ([n] + ns)[1..] == ns;
  }

  lemma PackedOne(ip: nat, n: nat)
    ensures Packed(ip, [n]) == ip / 256 + n * TOP_BYTE
  {
    assert [n][1..] == [];
  }

  lemma Resume(text: seq<byte>, p: nat, l: nat)
    requires p + l < |text|
    ensures text[p..] == text[p..p + l] + [text[p + l]] + text[p + l + 1..]
  {
  }

  lemma DelimiterFollows(text: seq<byte>, p: nat)
    requires Group(text, p).Some? && NulFree(text)
    ensures Delimits(Peek(text, p + GroupLength(text, p, 0)))
    ensures p + GroupLength(text, p, 0) <= |text|
         ==> (Peek(text, p + GroupLength(text, p, 0)) == NUL <==> p + GroupLength(text, p, 0) == |text|)
  {
    GroupUnrolled(text, p);
  }

  lemma PackedFour(a: nat, b: nat, c: nat, d: nat)
    requires a < 256 && b < 256 && c < 256 && d < 256
    ensures Packed(0, [a, b, c, d]) == Whole(a, b, c, d)
  {
    assert [a, b, c, d][1..] == [b, c, d] && [b, c, d][1..] == [c, d] && [c, d][1..] == [d] && [d][1..] == [];
    assert Packed(a * TOP_BYTE, [b, c, d]) == Packed(a * 0x1_0000 + b * TOP_BYTE, [c, d]);
    assert Packed(a * 0x1_0000 + b * TOP_BYTE, [c, d]) == Packed(a * 256 + b * 0x1_0000 + c * TOP_BYTE, [d]);
    assert Packed(a * 256 + b * 0x1_0000 + c * TOP_BYTE, [d]) == Packed(a + 256 * b + 0x1_0000 * c + TOP_BYTE * d, []);
  }

  lemma LowByte(low: nat, high: nat)
    requires low < 256
    ensures (low + 256 * high) % 256 == low && (low + 256 * high) / 256 == high
  {
  }

  /** Four bytes as one number, the first lowest. */
  function Whole(a: nat, b: nat, c: nat, d: nat): nat {
    a + 256 * (b + 256 * (c + 256 * d))
  }

  lemma OctetsOfWhole(a: nat, b: nat, c: nat, d: nat)
    requires a < 256 && b < 256 && c < 256 && d < 256
    ensures Octets(Whole(a, b, c, d)) == [a, b, c, d]
  {
    LowByte(a, b + 256 * (c + 256 * d));
    LowByte(b, c + 256 * d);
    LowByte(c, d);
  }

  lemma WholeOfOctets(ip: nat)
    requires ip < ADDRESS_LIMIT
    ensures Whole(ip % 256, ip / 256 % 256, ip / 256 / 256 % 256, ip / 256 / 256 / 256 % 256) == ip
  {
    var x, y := ip / 256, ip / 256 / 256;
    assert y < 0x1_0000 && y / 256 < 256;
  }

  lemma OctetsPack(ip: nat)
    requires ip < ADDRESS_LIMIT
    ensures AllOctets(Octets(ip)) && Packed(0, Octets(ip)) == ip
  {
    hide Packed;
    WholeOfOctets(ip);
    PackedFour(ip % 256, ip / 256 % 256, ip / 256 / 256 % 256, ip / 256 / 256 / 256 % 256);
  }

  lemma {:induction false} JoinedNulFree(ns: seq<nat>)
    ensures NulFree(Joined(ns))
  {
    hide Digits;
    if ns != [] {
      DigitsNulFree(ns[0]);
      JoinedNulFree(ns[1..]);
    }
  }

  /** Reading the text of any address gives it back. */
  lemma TextReadsBack(ip: nat)
    requires ip < ADDRESS_LIMIT
    ensures NulFree(AddressText(ip)) && Address(AddressText(ip)) == ip
  {
    hide Joined, Octets, Packed, AddressFrom;
    var text := AddressText(ip);
    JoinedNulFree(Octets(ip));
    OctetsPack(ip);
    assert text[0..] == text;
    JoinedIsRead(text, 0, 0, Octets(ip));
  }

  /** Whatever text reads as an address other than 0 is that address's text, to the letter. */
  lemma ReadTextIsCanonical(text: seq<byte>)
    requires NulFree(text) && Address(text) != 0
    ensures Address(text) < ADDRESS_LIMIT && AddressText(Address(text)) == text
  {
    hide Joined, AddressFrom, Packed, Octets;
    var ns := ReadIsJoined(text, 0, 0, 0);
    assert text[0..] == text;
    assert ns == [ns[0], ns[1], ns[2], ns[3]];
    PackedFour(ns[0], ns[1], ns[2], ns[3]);
    OctetsOfWhole(ns[0], ns[1], ns[2], ns[3]);
  }

  // ----- The source's loops -----

  /** Counts the characters before a delimiter, at most 4. */
  method CountCharacters(text: seq<byte>, cp: nat) returns (l: nat)
    ensures l == GroupLength(text, cp, 0)
  {
    l := 0;
    while l < 4
      invariant l <= 4 && GroupLength(text, cp, l) == GroupLength(text, cp, 0)
    {
      var c := Peek(text, cp + l);
      if c == DOT || c == NUL {
        break;
      }
      l := l + 1;
    }
  }

  /** Reads one number; `next` is behind the delimiter and `c` is the delimiter. */
  method ReadNumber(text: seq<byte>, cp: nat) returns (number: Option<nat>, next: nat, c: byte)
    ensures number == Group(text, cp)
    ensures number.Some? ==> next == cp + GroupLength(text, cp, 0) + 1 && c == Peek(text, next - 1)
  {
    hide Peek, GroupLength;
    var l := CountCharacters(text, cp);
    number, next, c := None, cp, NUL;
    if l == 0 || l == 4 {
      return;
    }
    c := Peek(text, next);
    next := next + 1;
    if l > 1 && c == ZERO {
      return;
    }
    var t: nat, left: nat := 0, l;
    while left > 0
      invariant left <= l && next == cp + (l - left) + 1 && c == Peek(text, next - 1)
      invariant Decimal(text, next - 1, left, t) == Decimal(text, cp, l, 0)
    {
      if c < ZERO || c > NINE {
        return;
      }
      t := t * 10 + (c - ZERO);
      left := left - 1;
      c := Peek(text, next);
      next := next + 1;
    }
    if t > 255 {
      return;
    }
    number := Some(t);
  }

  /** Reads a dotted address; 0 for any error. */
  method InetAddr(text: seq<byte>) returns (ip: nat)
    ensures ip == Address(text)
  {
    hide Group, GroupLength, Peek;
    ip := 0;
    var cp, i: nat := 0, 0;
    while i < 4
      invariant i <= 4 && AddressFrom(text, i, cp, ip) == Address(text)
    {
      var t, next, c := ReadNumber(text, cp);
      if t.None? {
        return 0;
      }
      ip := ip / 256 + t.value * TOP_BYTE;
      if (c == NUL && i != 3) || (c != NUL && i == 3) {
        return 0;
      }
      cp := next;
      i := i + 1;
    }
  }

  /** How often v goes into t, as a digit, and what is left. */
  method CountOff(t: nat, v: nat) returns (c: byte, rest: nat)
    requires v in {1, 10, 100} && t < 10 * v
    ensures c == ZERO + t / v && rest == t % v
  {
    rest := t;
    var times: nat := 0;
    while rest >= v
      invariant t == times * v + rest && times < 10
      decreases rest
    {
      times := times + 1;
      rest := rest - v;
      Distributes(times, v);
    }
    c := ZERO + times;
    if v == 1 {
    } else if v == 10 {
    } else {
    }
  }

  lemma Distributes(times: nat, v: nat)
    ensures times * v == (times - 1) * v + v
  {
  }

  /** The digits written when v is next to be counted off. */
  function Written(number: nat, v: nat): (t: seq<byte>)
    requires number < 256
  {
    if v == 100 then []
    else if v == 10 then (if number >= 100 then [ZERO + number / 100] else [])
    else if v == 1 then
      (if number >= 100 then [ZERO + number / 100, ZERO + number / 10 % 10]
       else if number >= 10 then [ZERO + number / 10]
       else [])
    else Digits(number)
  }

  /** What one turn adds: the digit, unless it is a leading zero. */
  function WithDigit(t: seq<byte>, c: byte): seq<byte> {
    if c != ZERO || t != [] then t + [c] else t
  }

  lemma HundredsWritten(number: nat)
    requires 0 < number < 256
    ensures Written(number, 10) == WithDigit(Written(number, 100), ZERO + number % 1000 / 100)
    ensures number % 1000 % 100 == number % 100
  {
    assert number % 1000 == number;
  }

  lemma TensWritten(number: nat)
    requires 0 < number < 256
    ensures Written(number, 1) == WithDigit(Written(number, 10), ZERO + number % 100 / 10)
    ensures number % 100 % 10 == number % 10
  {
    var h, t := number / 100, number % 100 / 10;
    assert number / 10 == 10 * h + t;
  }

  lemma OnesWritten(number: nat)
    requires 0 < number < 256
    ensures Written(number, 0) == WithDigit(Written(number, 1), ZERO + number % 10 / 1)
  {
    hide Digits;
    DigitsOfSmall(number);
  }

  lemma WrittenMore(number: nat, v: nat)
    requires 0 < number < 256 && v in {1, 10, 100}
    ensures Written(number, v / 10) == WithDigit(Written(number, v), ZERO + number % (10 * v) / v)
    ensures number % (10 * v) % v == number % v
  {
    hide Written, WithDigit;
    if v == 100 {
      HundredsWritten(number);
    } else if v == 10 {
      TensWritten(number);
    } else {
      OnesWritten(number);
    }
  }

  /** Writes one number without leading zeros by counting how often 100, 10 and 1 go into it. */
  method WriteNumber(number: nat, dst: array<byte>, at: nat) returns (next: nat)
    requires number < 256 && at + 3 <= dst.Length
    modifies dst
    ensures at < next <= at + 3 && dst[..next] == old(dst[..at]) + Digits(number)
  {
    hide Digits, Written;
    DigitsOfSmall(number);
    next := at;
    if number == 0 {
      dst[next] := ZERO;
      next := next + 1;
      return;
    }
    ghost var before := dst[..at];
    var t, v, n := number, 100, 0;
    WrittenStarts(number);
    while v > 0
      invariant v in {0, 1, 10, 100} && t == (if v == 0 then 0 else number % (10 * v))
      invariant n == |Written(number, v)| && next == at + n
      invariant n <= 3 && (v == 100 ==> n == 0) && (v == 10 ==> n <= 1) && (v == 1 ==> n <= 2)
      invariant dst[..next] == before + Written(number, v)
      decreases v
    {
      var c, rest := CountOff(t, v);
      WrittenMore(number, v);
      t := rest;
      v := v / 10;
      if c != ZERO || n > 0 {
        dst[next] := c;
        next := next + 1;
        n := n + 1;
      }
    }
    WrittenEnds(number);
  }

  lemma WrittenStarts(number: nat)
    requires number < 256
    ensures Written(number, 100) == [] && number % 1000 == number
  {
  }

  lemma WrittenEnds(number: nat)
    requires number < 256
    ensures Written(number, 0) == Digits(number)
  {
  }

  /** The address after i shifts by a byte. */
  function Lowered(ip: nat, i: nat): nat {
    if i == 0 then ip else if i == 1 then ip / 256 else if i == 2 then ip / 256 / 256
    else if i == 3 then ip / 256 / 256 / 256 else ip / 256 / 256 / 256 / 256
  }

  lemma LoweredOctet(ip: nat, i: nat)
    requires i < 4
    ensures Lowered(ip, i) % 256 == Octets(ip)[i] && Lowered(ip, i) / 256 == Lowered(ip, i + 1)
  {
  }

  /** Numbers with a dot behind each. */
  function Dotted(ns: seq<nat>): seq<byte> {
    if ns == [] then [] else Digits(ns[0]) + [DOT] + Dotted(ns[1..])
  }

  lemma {:induction false} DottedSnoc(ns: seq<nat>, n: nat)
    ensures Dotted(ns + [n]) == Dotted(ns) + (Digits(n) + [DOT])
    ensures Joined(ns + [n]) == Dotted(ns) + Digits(n)
  {
    hide Digits;
    if ns == [] {
      assert [n][1..] == [];
      assert ns + [n] == [n];
    } else {
      assert (ns + [n])[1..] == ns[1..] + [n];
      DottedSnoc(ns[1..], n);
    }
  }

  /** What stands in the buffer after i numbers. */
  function InBuffer(ns: seq<nat>, i: nat): seq<byte>
    requires i <= |ns| == 4
  {
    if i < 4 then Dotted(ns[..i]) else Joined(ns) + [NUL]
  }

  lemma InBufferMore(ns: seq<nat>, i: nat)
    requires i < |ns| == 4
    ensures InBuffer(ns, i + 1) == InBuffer(ns, i) + Digits(ns[i]) + [if i == 3 then NUL else DOT]
  {
    hide Digits, Dotted, Joined;
    DottedSnoc(ns[..i], ns[i]);
    assert ns[..i] + [ns[i]] == ns[..i + 1];
    assert ns[..4] == ns;
  }

  lemma InBufferStarts(ns: seq<nat>)
    requires |ns| == 4
    ensures InBuffer(ns, 0) == []
  {
    assert ns[..0] == [];
  }

  /** Writes an address with its terminator into a buffer of at least 16 bytes. */
  method InetNtop(address: nat, dst: array<byte>) returns (ok: bool)
    requires address < ADDRESS_LIMIT
    modifies dst
    ensures ok <==> dst.Length >= 16
    ensures ok ==> |AddressText(address)| < 16 && dst[..|AddressText(address)| + 1] == AddressText(address) + [NUL]
    ensures !ok ==> dst[..] == old(dst[..])
  {
    hide Digits, InBuffer, Octets, Lowered;
    if dst.Length < 16 {
      return false;
    }
    ok := true;
    var ip: nat, next: nat, i: nat := address, 0, 0;
    ghost var ns := Octets(address);
    InBufferStarts(ns);
    assert ip == Lowered(address, 0) by { NotLowered(address); }
    while i < 4
      invariant i <= 4 && next <= 4 * i
      invariant ip == Lowered(address, i)
      invariant dst[..next] == InBuffer(ns, i)
    {
      LoweredOctet(address, i);
      InBufferMore(ns, i);
      next := WriteNumber(ip % 256, dst, next);
      ghost var middle := dst[..next];
      dst[next] := if i == 3 then NUL else DOT;
      next := next + 1;
      assert dst[..next] == middle + [dst[next - 1]];
      ip := ip / 256;
      i := i + 1;
    }
    assert InBuffer(ns, 4) == AddressText(address) + [NUL] by { BufferIsText(address); }
  }

  lemma NotLowered(ip: nat)
    ensures Lowered(ip, 0) == ip
  {
  }

  lemma BufferIsText(ip: nat)
    ensures InBuffer(Octets(ip), 4) == AddressText(ip) + [NUL]
  {
  }
}
