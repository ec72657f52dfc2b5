/**
 The parser of firmware/src/cJSON.c: what each `parse_*` function finds at a position,
 as functions, and the `parse_buffer` methods that compute it by moving a shared cursor.
 */
module JsonParser {
  import opened Bytes
  import opened JsonValue
  import opened JsonString
  import opened JsonList
  import opened JsonTree

  const NESTING_LIMIT: nat := 1000

  /** The input ends in a NUL, as `cJSON_ParseWithOpts` arranges. */
  predicate Terminated(c: seq<byte>) { |c| > 0 && c[|c| - 1] == NUL }

  /** How many bytes `parse_number` hands to strtod, at most. */
  const NUMBER_LIMIT: nat := 63

  datatype Parsed = Failed | Parsed(value: Value, next: nat)

  // ----- White space -----

  /** The first byte above 32 from `off` on, or the last byte of the input. */
  function SkipSpace(c: seq<byte>, off: nat): (r: nat)
    requires off < |c|
    ensures off <= r < |c|
    ensures forall i :: off <= i < r ==> c[i] <= SPACE
    ensures c[r] > SPACE || r == |c| - 1
    decreases |c| - off
  {
    if off + 1 < |c| && c[off] <= SPACE then SkipSpace(c, off + 1) else off
  }

  // ----- Numbers: what strtod makes of a run of number characters -----

  predicate IsNumberByte(b: byte) {
    IsDigit(b) || b == PLUS || b == MINUS || b == LOWER_E || b == UPPER_E || b == DOT
  }

  /** The length of the run of number bytes at `p`, at most `limit`. */
  function NumberRun(c: seq<byte>, p: nat, limit: nat): (n: nat)
    requires p <= |c|
    ensures n <= limit && p + n <= |c|
    decreases |c| - p
  {
    if limit > 0 && p < |c| && IsNumberByte(c[p]) then 1 + NumberRun(c, p + 1, limit - 1) else 0
  }

  /** The run is made of number bytes, and ends for one of three reasons. */
  lemma NumberRunBytes(c: seq<byte>, p: nat, limit: nat)
    requires p <= |c|
    ensures var n := NumberRun(c, p, limit);
            (forall i :: p <= i < p + n ==> IsNumberByte(c[i]))
            && (n == limit || p + n == |c| || !IsNumberByte(c[p + n]))
    decreases |c| - p
  {
    if limit > 0 && p < |c| && IsNumberByte(c[p]) {
      NumberRunBytes(c, p + 1, limit - 1);
    }
  }

  function DigitRun(s: seq<byte>, p: nat): (n: nat)
    requires p <= |s|
    ensures p + n <= |s|
    ensures forall i :: p <= i < p + n ==> IsDigit(s[i])
    ensures p + n == |s| || !IsDigit(s[p + n])
    decreases |s| - p
  {
    if p < |s| && IsDigit(s[p]) then 1 + DigitRun(s, p + 1) else 0
  }

  function DigitsValue(s: seq<byte>): (v: nat)
    requires forall i :: 0 <= i < |s| ==> IsDigit(s[i])
  {
    if s == [] then 0
    else
      assert IsDigit(s[|s| - 1]);
      10 * DigitsValue(s[..|s| - 1]) + (s[|s| - 1] - ZERO)
  }

  function Scaled(m: int, e: int): real {
    if e >= 0 then (m * Pow10(e)) as real else m as real / Pow10(-e) as real
  }

  predicate IsSign(s: seq<byte>, p: nat) { p < |s| && (s[p] == MINUS || s[p] == PLUS) }

  /** The exponent part at `p`, and where it ends; no exponent when no digit follows. */
  function Exponent(s: seq<byte>, p: nat): (r: (int, nat))
    requires p <= |s|
    ensures p <= r.1 <= |s|
  {
    if p < |s| && (s[p] == LOWER_E || s[p] == UPPER_E) then
      var q := if IsSign(s, p + 1) then p + 2 else p + 1;
      var n := DigitRun(s, q);
      if n == 0 then (0, p)
      else
        var e: int := DigitsValue(s[q..q + n]);
        (if s[p + 1] == MINUS then -e else e, q + n)
    else (0, p)
  }

  datatype Conversion = NoConversion | Converted(number: real, used: nat)

  /** `strtod`: optional sign, digits with an optional point, optional exponent. */
  function StrToD(s: seq<byte>): (r: Conversion)
    ensures r.Converted? ==> 0 < r.used <= |s|
  {
    var p := if IsSign(s, 0) then 1 else 0;
    var n := DigitRun(s, p);
    var hasPoint := p + n < |s| && s[p + n] == DOT;
    var f := if hasPoint then DigitRun(s, p + n + 1) else 0;
    if n + f == 0 then NoConversion
    else
      var q := if hasPoint then p + n + 1 + f else p + n;
      var fraction := if hasPoint then s[p + n + 1..q] else [];
      var (e, end) := Exponent(s, q);
      var m := DigitsValue(s[p..p + n]) * Pow10(f) + DigitsValue(fraction);
      Converted(Scaled(if s[0] == MINUS then -m else m, e - f), end)
  }

  function ParseNumberAt(c: seq<byte>, off: nat): (r: Parsed)
    requires off < |c|
    ensures r.Parsed? ==> off < r.next <= |c| && c[r.next - 1] != NUL
    ensures r.Parsed? && Terminated(c) ==> r.next < |c|
  {
    var n := NumberRun(c, off, NUMBER_LIMIT);
    NumberRunBytes(c, off, NUMBER_LIMIT);
    match StrToD(c[off..off + n])
    case NoConversion => Failed
    case Converted(v, used) => Parsed(Number(v), off + used)
  }

  // ----- Values -----

  /** `null`, `false` or `true` at `off`. */
  function ParseNamedAt(c: seq<byte>, off: nat): (r: Parsed)
    ensures r.Parsed? ==> off < r.next <= |c| && c[r.next - 1] != NUL
    ensures r.Parsed? && Terminated(c) ==> r.next < |c|
  {
    if At(c, off, NULL_TEXT) then AtIndex(c, off, NULL_TEXT, 3); Parsed(Null, off + 4)
    else if At(c, off, FALSE_TEXT) then AtIndex(c, off, FALSE_TEXT, 4); Parsed(False, off + 5)
    else if At(c, off, TRUE_TEXT) then AtIndex(c, off, TRUE_TEXT, 3); Parsed(True, off + 4)
    else Failed
  }

  function ParseQuotedAt(c: seq<byte>, off: nat): (r: Parsed)
    requires Terminated(c) && off < |c|
    ensures r.Parsed? ==> off < r.next < |c|
  {
    var r := ParseStringAt(c, off);
    if r.NoLiteral? then Failed else Parsed(String(r.value), r.next)
  }

  /** `parse_value` at `off`, inside `depth` containers. */
  function ParseValueAt(c: seq<byte>, off: nat, depth: nat): (r: Parsed)
    requires Terminated(c) && off < |c|
    ensures r.Parsed? ==> off < r.next < |c|
    decreases |c| - off, 3
  {
    if ParseNamedAt(c, off).Parsed? then ParseNamedAt(c, off)
    else if c[off] == QUOTE then ParseQuotedAt(c, off)
    else if c[off] == MINUS || IsDigit(c[off]) then ParseNumberAt(c, off)
    else if c[off] == LEFT_BRACKET then ParseArrayAt(c, off, depth)
    else if c[off] == LEFT_BRACE then ParseObjectAt(c, off, depth)
    else Failed
  }

  function ParseArrayAt(c: seq<byte>, off: nat, depth: nat): (r: Parsed)
    requires Terminated(c) && off < |c| && c[off] == LEFT_BRACKET
    ensures r.Parsed? ==> off < r.next < |c|
    decreases |c| - off, 2
  {
    if depth >= NESTING_LIMIT then Failed
    else
      var p := SkipSpace(c, off + 1);
      if c[p] == RIGHT_BRACKET then Parsed(Array([]), p + 1)
      else ParseItemsAt(c, p - 1, depth + 1, [])
  }

  /** The item after position `off`, which is a comma or stands just before the first item,
      and where the byte that follows the item and its white space is. */
  function ParseItemAt(c: seq<byte>, off: nat, depth: nat): (r: Parsed)
    requires Terminated(c) && off + 1 < |c|
    ensures r.Parsed? ==> off < r.next < |c|
    decreases |c| - off, 0
  {
    match ParseValueAt(c, SkipSpace(c, off + 1), depth)
    case Failed => Failed
    case Parsed(v, next) => Parsed(v, SkipSpace(c, next))
  }

  /** The rest of an array whose items so far are `acc`. */
  function ParseItemsAt(c: seq<byte>, off: nat, depth: nat, acc: seq<Value>): (r: Parsed)
    requires Terminated(c) && off + 1 < |c|
    ensures r.Parsed? ==> off < r.next < |c|
    decreases |c| - off, 1
  {
    match ParseItemAt(c, off, depth)
    case Failed => Failed
    case Parsed(v, p) =>
      if c[p] == COMMA then ParseItemsAt(c, p, depth, acc + [v])
      else if c[p] == RIGHT_BRACKET then Parsed(Array(acc + [v]), p + 1)
      else Failed
  }

  function ParseObjectAt(c: seq<byte>, off: nat, depth: nat): (r: Parsed)
    requires Terminated(c) && off < |c| && c[off] == LEFT_BRACE
    ensures r.Parsed? ==> off < r.next < |c|
    decreases |c| - off, 2
  {
    if depth >= NESTING_LIMIT then Failed
    else
      var p := SkipSpace(c, off + 1);
      if c[p] == RIGHT_BRACE then Parsed(Object([]), p + 1)
      else ParseMembersAt(c, p - 1, depth + 1, [])
  }

  /** The colon after the member name at `off`, and the name. */
  function ParseNameAt(c: seq<byte>, off: nat): (r: Literal)
    requires Terminated(c) && off < |c|
    ensures r.Literal? ==> off < r.next && r.next + 1 < |c|
  {
    match ParseStringAt(c, off)
    case NoLiteral => NoLiteral
    case Literal(key, next) =>
      var p := SkipSpace(c, next);
      if c[p] == COLON then Literal(key, p) else NoLiteral
  }

  datatype NamedValue = NoMember | NamedValue(member: Member, next: nat)

  /** The member after position `off`, and where the byte that follows it is. */
  function ParseMemberAt(c: seq<byte>, off: nat, depth: nat): (r: NamedValue)
    requires Terminated(c) && off + 1 < |c|
    ensures r.NamedValue? ==> off < r.next < |c|
    decreases |c| - off, 0
  {
    match ParseNameAt(c, SkipSpace(c, off + 1))
    case NoLiteral => NoMember
    case Literal(key, colon) =>
      match ParseValueAt(c, SkipSpace(c, colon + 1), depth)
      case Failed => NoMember
      case Parsed(v, next) => NamedValue(Member(key, v), SkipSpace(c, next))
  }

  /** The rest of an object whose members so far are `acc`. */
  function ParseMembersAt(c: seq<byte>, off: nat, depth: nat, acc: seq<Member>): (r: Parsed)
    requires Terminated(c) && off + 1 < |c|
    ensures r.Parsed? ==> off < r.next < |c|
    decreases |c| - off, 1
  {
    match ParseMemberAt(c, off, depth)
    case NoMember => Failed
    case NamedValue(m, p) =>
      if c[p] == COMMA then ParseMembersAt(c, p, depth, acc + [m])
      else if c[p] == RIGHT_BRACE then Parsed(Object(acc + [m]), p + 1)
      else Failed
  }

  const BYTE_ORDER_MARK: seq<byte> := [0xEF, 0xBB, 0xBF]

  function Start(c: seq<byte>): (p: nat)
    requires Terminated(c)
    ensures p < |c|
  {
    SkipSpace(c, if 4 < |c| && At(c, 0, BYTE_ORDER_MARK) then 3 else 0)
  }

  /** `cJSON_ParseWithOpts` on the C string that begins with `text`: `strlen` ends it at the first NUL. */
  function ParseText(text: seq<byte>, requireEnd: bool): Option<Value> {
    var c := CString(text) + [NUL];
    match ParseValueAt(c, Start(c), 0)
    case Failed => None
    case Parsed(v, next) =>
      if requireEnd && c[SkipSpace(c, next)] != NUL then None else Some(v)
  }

  /** Where the parsed text ends: behind the value, or with the demand that nothing follows, at the terminator. */
  function EndOf(text: seq<byte>, requireEnd: bool): nat
    requires ParseText(text, requireEnd).Some?
  {
    var c := CString(text) + [NUL];
    var next := ParseValueAt(c, Start(c), 0).next;
    if requireEnd then SkipSpace(c, next) else next
  }

  // ----- The parse_buffer and the functions that move its cursor -----

  class ParseBuffer {
    const content: seq<byte>
    var offset: nat
    var depth: nat

    constructor (content: seq<byte>)
      ensures this.content == content && offset == 0 && depth == 0
    {
      this.content := content;
      offset, depth := 0, 0;
    }

    predicate CanAccess(index: nat)
      reads this
    {
      offset + index < |content|
    }

    method SkipWhitespace()
      requires |content| > 0 && offset <= |content|
      modifies this`offset
      ensures offset == if old(offset) < |content| then SkipSpace(content, old(offset)) else |content| - 1
    {
      while CanAccess(0) && content[offset] <= SPACE
        invariant old(offset) <= offset <= |content|
        invariant old(offset) < |content| && offset < |content| ==>
          SkipSpace(content, old(offset)) == SkipSpace(content, offset)
        invariant old(offset) < |content| && offset == |content| ==>
          SkipSpace(content, old(offset)) == |content| - 1
        decreases |content| - offset
      {
        offset := offset + 1;
      }
      if offset == |content| {
        offset := offset - 1;
      }
    }

    method SkipUtf8Bom()
      requires offset == 0
      modifies this`offset
      ensures offset == if 4 < |content| && At(content, 0, BYTE_ORDER_MARK) then 3 else 0
    {
      if CanAccess(4) && content[..3] == BYTE_ORDER_MARK {
        offset := offset + 3;
      }
    }

    /** The number goes into the item as a double and, kept within its limits, as an `int`. */
    method ParseNumber(item: Item) returns (ok: bool)
      requires offset < |content|
      modifies this`offset, item`content
      ensures var r := ParseNumberAt(content, old(offset));
              && ok == r.Parsed?
              && (ok ==> offset == r.next && r.value.Number?
                         && item.content == old(item.content).(kind := NumberKind, number := r.value.value,
                                                               integer := Saturated(r.value.value)))
      ensures offset <= |content|
    {
      hide StrToD, Saturated;
      var numberCString := new byte[NUMBER_LIMIT + 1];
      var i := CopyNumberBytes(numberCString);
      numberCString[i] := NUL;
      assert numberCString[..i] == content[offset..offset + i];
      match StrToD(numberCString[..i]) {
        case NoConversion => ok := false;
        case Converted(number, used) =>
          ok := true;
          var valueint := Saturate(number);
          item.content := item.content.(kind := NumberKind, number := number, integer := valueint);
          offset := offset + used;
      }
    }

    /** The saturation at the end of `parse_number`. */
    static method Saturate(number: real) returns (valueint: int)
      ensures valueint == Saturated(number)
    {
      if number >= INT_MAX as real {
        valueint := INT_MAX;
      } else if number <= INT_MIN as real {
        valueint := INT_MIN;
      } else {
        valueint := if number >= 0.0 then number.Floor else -(-number).Floor;
      }
    }

    /** The copying loop of `parse_number`. */
    method CopyNumberBytes(numberCString: array<byte>) returns (i: nat)
      requires offset < |content| && numberCString.Length > 0
      modifies numberCString
      ensures i == NumberRun(content, offset, numberCString.Length - 1) && numberCString[..i] == content[offset..offset + i]
    {
      i := 0;
      while i < numberCString.Length - 1 && CanAccess(i) && IsNumberByte(content[offset + i])
        invariant i <= numberCString.Length - 1 && offset + i <= |content|
        invariant numberCString[..i] == content[offset..offset + i]
        invariant NumberRun(content, offset, numberCString.Length - 1) == i + NumberRun(content, offset + i, numberCString.Length - 1 - i)
        decreases numberCString.Length - i
      {
        numberCString[i] := content[offset + i];
        i := i + 1;
      }
    }

    /** `parse_hex4` on the content at `p`. */
    method ParseHex4(p: nat) returns (h: nat)
      requires p + 4 <= |content|
      ensures h == Hex4(content, p)
    {
      h := 0;
      var i := 0;
      while i < 4
        invariant 0 <= i <= 4
        invariant forall j :: p <= j < p + i ==> HexDigit(content[j]) >= 0
        invariant i == 0 ==> h == 0
        invariant i == 1 ==> h == HexDigit(content[p]) * 16
        invariant i == 2 ==> h == (HexDigit(content[p]) * 16 + HexDigit(content[p + 1])) * 16
        invariant i == 3 ==> h == ((HexDigit(content[p]) * 16 + HexDigit(content[p + 1])) * 16 + HexDigit(content[p + 2])) * 16
        invariant i == 4 ==> h == Hex4(content, p)
      {
        var d := HexDigit(content[p + i]);
        if d < 0 {
          return 0;
        }
        h := h + d;
        if i < 3 {
          h := h * 16;
        }
        i := i + 1;
      }
    }

    /** `utf16_literal_to_utf8`: writes at `pos` and returns how much input it used (0: failure)
        and the advanced output position. */
    method Utf16LiteralToUtf8(p: nat, end: nat, output: array<byte>, pos: nat)
        returns (sequenceLength: nat, newPos: nat)
      requires p <= end < |content|
      requires Utf16Escape(content, p, end).Good? ==> pos + |Utf16Escape(content, p, end).bytes| <= output.Length
      requires pos <= output.Length
      modifies output
      ensures var e := Utf16Escape(content, p, end);
              if e.Good? then
                sequenceLength == e.consumed && newPos == pos + |e.bytes|
                && output[..newPos] == old(output[..pos]) + e.bytes
              else sequenceLength == 0
    {
      newPos := pos;
      if end - p < 6 {
        return 0, pos;
      }
      var first := ParseHex4(p + 2);
      var codepoint := first;
      if 0xDC00 <= first <= 0xDFFF {
        return 0, pos;
      }
      if 0xD800 <= first <= 0xDBFF {
        sequenceLength := 12;
        if end - (p + 6) < 6 {
          return 0, pos;
        }
        if content[p + 6] != BACKSLASH || content[p + 7] != LOWER_U {
          return 0, pos;
        }
        var second := ParseHex4(p + 8);
        if second < 0xDC00 || second > 0xDFFF {
          return 0, pos;
        }
        codepoint := 0x10000 + first % 0x400 * 0x400 + second % 0x400;
      } else {
        sequenceLength := 6;
      }
      newPos := EncodeUtf8(codepoint, output, pos);
    }

    /** The encoding loop of `utf16_literal_to_utf8`, last byte first. */
    static method EncodeUtf8(cp: nat, output: array<byte>, pos: nat) returns (newPos: nat)
      requires cp <= 0x10FFFF && pos + |Utf8(cp)| <= output.Length
      modifies output
      ensures newPos == pos + |Utf8(cp)|
      ensures output[..newPos] == old(output[..pos]) + Utf8(cp)
    {
      var length, firstByteMark := 1, 0;
      if 0x80 <= cp < 0x800 {
        length, firstByteMark := 2, 0xC0;
      } else if 0x800 <= cp < 0x10000 {
        length, firstByteMark := 3, 0xE0;
      } else if 0x10000 <= cp {
        length, firstByteMark := 4, 0xF0;
      }
      ghost var u := Utf8(cp);
      assert |u| == length && u[0] == firstByteMark + (if length == 1 then cp else if length == 2 then cp / 64
                                                       else if length == 3 then cp / 4096 else cp / 262144);
      assert length > 1 ==> u[length - 1] == 0x80 + cp % 64;
      assert length > 2 ==> u[length - 2] == 0x80 + cp / 64 % 64;
      assert length > 3 ==> u[length - 3] == 0x80 + cp / 4096 % 64;
      hide Utf8;
      var k := length - 1;
      var codepoint := cp;
      while k > 0
        invariant 0 <= k < length
        invariant output[..pos] == old(output[..pos])
        invariant forall j :: k < j < length ==> output[pos + j] == u[j]
        invariant k == length - 1 ==> codepoint == cp
        invariant k == length - 2 ==> codepoint == cp / 64
        invariant k == length - 3 ==> codepoint == cp / 4096
        invariant k == length - 4 ==> codepoint == cp / 262144
      {
        output[pos + k] := 0x80 + codepoint % 64;
        codepoint := codepoint / 64;
        k := k - 1;
      }
      output[pos] := firstByteMark + codepoint;
      newPos := pos + length;
      assert output[pos..newPos] == u;
      assert output[..newPos] == output[..pos] + output[pos..newPos];
    }

    method ParseString(item: Item) returns (ok: bool)
      requires offset < |content|
      modifies this`offset, item`content
      ensures var r := ParseStringAt(content, old(offset));
              && ok == r.Literal?
              && (ok ==> offset == r.next && item.content == old(item.content).(kind := StringKind, text := r.value))
      ensures !ok ==> old(offset) < offset <= |content| && item.content == old(item.content)
    {
      var inputPointer, inputEnd := offset + 1, offset + 1;
      if content[offset] != QUOTE {
        offset := inputPointer;
        return false;
      }
      var skippedBytes := 0;
      while inputEnd < |content| && content[inputEnd] != QUOTE
        invariant offset + 1 <= inputEnd <= |content|
        invariant skippedBytes <= inputEnd - (offset + 1)
        invariant var a, b := ScanFrom(content, offset + 1), ScanFrom(content, inputEnd);
                  a.End? == b.End?
                  && (a.End? ==> a == End(b.at, b.tokens + (inputEnd - (offset + 1) - skippedBytes)))
        decreases |content| - inputEnd
      {
        if content[inputEnd] == BACKSLASH {
          if inputEnd + 1 >= |content| {
            offset := inputPointer;
            return false;
          }
          skippedBytes := skippedBytes + 1;
          inputEnd := inputEnd + 1;
        }
        inputEnd := inputEnd + 1;
      }
      if inputEnd >= |content| || content[inputEnd] != QUOTE {
        offset := inputPointer;
        return false;
      }
      var allocationLength := inputEnd - offset - skippedBytes;
      var output := new byte[allocationLength + 1];
      var n;
      ok, n, inputPointer := Unescape(inputEnd, output, allocationLength - 1);
      if !ok {
        offset := inputPointer;
        return false;
      }
      output[n] := NUL;
      assert output[..n] == Decode(content, offset + 1, inputEnd).value;
      item.content := item.content.(kind := StringKind, text := output[..n]);
      offset := inputEnd;
      offset := offset + 1;
    }

    /** The second loop of `parse_string`: decodes into `output`, or stops at an escape it cannot decode. */
    method Unescape(inputEnd: nat, output: array<byte>, ghost tokens: nat)
        returns (ok: bool, outputPointer: nat, inputPointer: nat)
      requires offset < |content| && ScanFrom(content, offset + 1) == End(inputEnd, tokens)
      requires output.Length >= tokens + 1
      modifies output
      ensures offset < inputPointer <= |content|
      ensures ok == Decode(content, offset + 1, inputEnd).Some?
      ensures ok ==> outputPointer <= tokens && output[..outputPointer] == Decode(content, offset + 1, inputEnd).value
    {
      hide DecodeEscape, ScanFrom;
      inputPointer, outputPointer := offset + 1, 0;
      ghost var q, room := inputPointer, tokens;
      PrependNil(Decode(content, offset + 1, inputEnd));
      while inputPointer < inputEnd
        invariant offset + 1 <= inputPointer <= inputEnd + 1
        invariant inputPointer <= inputEnd ==>
          inputPointer <= q <= inputPointer + 1 && q <= inputEnd && ScanFrom(content, q) == End(inputEnd, room)
          && outputPointer + room + (q - inputPointer) <= tokens
        invariant outputPointer <= tokens
        invariant Decode(content, offset + 1, inputEnd)
               == Prepend(output[..outputPointer], Decode(content, inputPointer, inputEnd))
        decreases inputEnd - inputPointer
      {
        ghost var e := if content[inputPointer] != BACKSLASH then Good([content[inputPointer]], 1)
                       else DecodeEscape(content, inputPointer, inputEnd);
        ghost var before, next := output[..outputPointer], q;
        if e.Good? {
          next, room := StepFits(content, inputPointer, q, inputEnd, room, |e.bytes|, e.consumed);
        }
        var sequenceLength, newPointer := UnescapeOne(inputPointer, inputEnd, output, outputPointer);
        if sequenceLength == 0 {
          return false, outputPointer, inputPointer;
        }
        PrependTwice(before, e.bytes, Decode(content, inputPointer + e.consumed, inputEnd));
        outputPointer, inputPointer, q := newPointer, inputPointer + sequenceLength, next;
      }
      PrependTwice(output[..outputPointer], [], Some([]));
      ok := true;
    }

    /** One turn of that loop: how much input it used (0: failure), and the new end of the output. */
    method UnescapeOne(p: nat, end: nat, output: array<byte>, pos: nat) returns (sequenceLength: nat, newPos: nat)
      requires p < end < |content|
      requires pos < output.Length
      requires content[p] == BACKSLASH && DecodeEscape(content, p, end).Good? ==>
        pos + |DecodeEscape(content, p, end).bytes| <= output.Length
      modifies output
      ensures var e := if content[p] != BACKSLASH then Good([content[p]], 1) else DecodeEscape(content, p, end);
              if e.Good? then
                sequenceLength == e.consumed && newPos == pos + |e.bytes|
                && output[..newPos] == old(output[..pos]) + e.bytes
              else sequenceLength == 0
    {
      sequenceLength, newPos := 2, pos + 1;
      if content[p] != BACKSLASH {
        output[pos] := content[p];
        sequenceLength := 1;
      } else if content[p + 1] == LOWER_B {
        output[pos] := BACKSPACE;
      } else if content[p + 1] == LOWER_F {
        output[pos] := FORM_FEED;
      } else if content[p + 1] == LOWER_N {
        output[pos] := LINE_FEED;
      } else if content[p + 1] == LOWER_R {
        output[pos] := RETURN;
      } else if content[p + 1] == LOWER_T {
        output[pos] := TAB;
      } else if content[p + 1] == QUOTE || content[p + 1] == BACKSLASH || content[p + 1] == SLASH {
        output[pos] := content[p + 1];
      } else if content[p + 1] == LOWER_U {
        sequenceLength, newPos := Utf16LiteralToUtf8(p, end, output, pos);
      } else {
        sequenceLength := 0;
      }
    }

    // ----- Values, arrays and objects -----

    predicate Ready()
      reads this
    {
      Terminated(content) && offset < |content| && depth <= NESTING_LIMIT
    }

    /** What a parse method has done when `r` is what stood at the position it started from: on success the cursor
        is behind it and the depth as before; the depth never passes the limit, nor the cursor the content. */
    ghost predicate Result(ok: bool, r: Parsed, depth0: nat)
      reads this
    {
      && ok == r.Parsed? && (ok ==> offset == r.next && depth == depth0)
      && depth <= NESTING_LIMIT && offset <= |content|
    }

    /** The item and the nodes below it form the tree of the value. */
    static ghost predicate Formed(item: Item, s: Shape, v: Value, key: seq<byte>)
      reads Nodes(s)
    {
      s.item == item && Forms(s, Built(v, key))
    }

    /** A value is parsed into an item: its own node is filled, and all below it are new. */
    method ParseValue(item: Item) returns (ok: bool, ghost s: Shape)
      requires Ready() && Unset(item)
      modifies this, item`content, item`child
      ensures var r := ParseValueAt(content, old(offset), old(depth));
              && Result(ok, r, old(depth)) && (ok ==> Formed(item, s, r.value, old(item.content.key)))
      ensures ok ==> fresh(NodesOf(s.subs))
      decreases |content| - offset, 4
    {
      hide ParseNumberAt, ParseStringAt, ParseArrayAt, ParseObjectAt, Saturated, Forms, BuiltItems, BuiltMembers;
      s := Shape(item, []);
      ok := true;
      if offset + 4 <= |content| && content[offset..offset + 4] == NULL_TEXT {
        item.content := item.content.(kind := NullKind);
        offset := offset + 4;
      } else if offset + 5 <= |content| && content[offset..offset + 5] == FALSE_TEXT {
        item.content := item.content.(kind := FalseKind);
        offset := offset + 5;
      } else if offset + 4 <= |content| && content[offset..offset + 4] == TRUE_TEXT {
        item.content := item.content.(kind := TrueKind, integer := 1);
        offset := offset + 4;
      } else if CanAccess(0) && content[offset] == QUOTE {
        ok := ParseString(item);
      } else if CanAccess(0) && (content[offset] == MINUS || ZERO <= content[offset] <= NINE) {
        ok := ParseNumber(item);
      } else if CanAccess(0) && content[offset] == LEFT_BRACKET {
        ok, s := ParseArray(item);
        return;
      } else if CanAccess(0) && content[offset] == LEFT_BRACE {
        ok, s := ParseObject(item);
        return;
      } else {
        return false, s;
      }
      LeafForms(item);
    }

    /** The children of an array are read into a chain of new items. */
    method ParseArray(item: Item) returns (ok: bool, ghost s: Shape)
      requires Ready() && content[offset] == LEFT_BRACKET && Unset(item)
      modifies this, item`content, item`child
      ensures var r := ParseArrayAt(content, old(offset), old(depth));
              && Result(ok, r, old(depth)) && (ok ==> Formed(item, s, r.value, old(item.content.key)))
      ensures ok ==> fresh(NodesOf(s.subs))
      decreases |content| - offset, 3
    {
      hide ParseItemAt, Grown, Forms, BuiltItems, Nodes, NodesOf;
      s := Shape(item, []);
      if depth >= NESTING_LIMIT {
        return false, s;
      }
      depth := depth + 1;
      offset := offset + 1;
      SkipWhitespace();
      var head: Item?, current: Item? := null, null;
      ghost var items, shapes := [], [];
      NothingGrown();
      if !(CanAccess(0) && content[offset] == RIGHT_BRACKET) {
        assert CanAccess(0); // so the source's test for the end of the buffer never fires
        offset := offset - 1;
        ok, head, current, items, shapes := ParseItems();
        if !ok {
          return;
        }
      }
      ok := true;
      s := CloseContainer(item, ArrayKind, head, current, shapes, BuiltItems(items));
    }

    /** The loop of `parse_array`, to the closing bracket. */
    method ParseItems() returns (ok: bool, head: Item?, current: Item?, ghost items: seq<Value>, ghost shapes: seq<Shape>)
      requires Ready() && offset + 1 < |content|
      modifies this
      ensures var r := ParseItemsAt(content, old(offset), old(depth), []);
              && ok == r.Parsed? && depth <= NESTING_LIMIT && offset <= |content|
              && (ok ==> r == Parsed(Array(items), offset + 1) && depth == old(depth))
      ensures ok ==> Grown(head, current, shapes, BuiltItems(items)) && fresh(NodesOf(shapes))
      decreases |content| - offset, 2
    {
      hide ParseItemAt, Grown, BuiltItems, Nodes, NodesOf;
      head, current, items, shapes := null, null, [], [];
      NothingGrown();
      var more := true;
      while more
        invariant old(offset) <= offset < |content| && depth == old(depth)
        invariant more ==> offset + 1 < |content|
        invariant ParseItemsAt(content, old(offset), old(depth), []) ==
                  if more then ParseItemsAt(content, offset, depth, items)
                  else if content[offset] == RIGHT_BRACKET then Parsed(Array(items), offset + 1)
                  else Failed
        invariant Grown(head, current, shapes, BuiltItems(items)) && fresh(NodesOf(shapes))
        decreases more, |content| - offset
      {
        LastIsGrown(head, current, shapes, BuiltItems(items));
        ghost var v := ParseItemAt(content, offset, depth);
        var made, first, last, t := ParseItem(head, current, shapes, BuiltItems(items));
        if !made {
          ok := false;
          return;
        }
        SnocBuilt(items, v.value);
        head, current, items, shapes := first, last, items + [v.value], shapes + [t];
        more := CanAccess(0) && content[offset] == COMMA;
      }
      ok := CanAccess(0) && content[offset] == RIGHT_BRACKET;
    }

    /** The chain becomes the children of the item, and the cursor passes the closing bracket or brace. */
    method CloseContainer(item: Item, kind: Kind, head: Item?, ghost current: Item?, ghost shapes: seq<Shape>, ghost trees: seq<Tree>)
      returns (ghost s: Shape)
      requires Grown(head, current, shapes, trees) && item !in NodesOf(shapes) && depth > 0
      modifies this`depth, this`offset, item`content, item`child
      ensures depth == old(depth) - 1 && offset == old(offset) + 1
      ensures s == Shape(item, shapes) && Forms(s, Tree(old(item.content).(kind := kind), trees))
    {
      hide Grown, Forms, Nodes, NodesOf;
      depth := depth - 1;
      item.content := item.content.(kind := kind);
      item.child := head;
      offset := offset + 1;
      s := Shape(item, shapes);
      RowBecomesChildren(item, current, shapes, item.content, trees);
    }

    /** A new item at the end of the chain. */
    method AttachNew(head: Item?, current: Item?, ghost ss: seq<Shape>, ghost trees: seq<Tree>)
      returns (newHead: Item, newItem: Item)
      requires Grown(head, current, ss, trees)
      modifies Optional(current)`next
      ensures Waiting(newHead, newItem, ss, trees) && fresh(newItem) && newItem !in NodesOf(ss)
      ensures Unset(newItem) && newItem.content.key == []
    {
      hide Grown, Waiting;
      assert allocated(NodesOf(ss));
      newItem := new Item(Own(NullKind, 0.0, 0, [], []));
      newHead := AttachBlank(head, current, newItem, ss, trees);
    }

    /** One turn of the loop of `parse_array`, up to its test for a comma. */
    method ParseItem(head: Item?, current: Item?, ghost ss: seq<Shape>, ghost trees: seq<Tree>)
      returns (ok: bool, newHead: Item?, newItem: Item?, ghost s: Shape)
      requires Ready() && offset + 1 < |content| && Grown(head, current, ss, trees)
      modifies this, Optional(current)`next
      ensures var r := ParseItemAt(content, old(offset), old(depth));
              && Result(ok, r, old(depth))
              && (ok ==> Grown(newHead, newItem, ss + [s], trees + [Built(r.value, [])]))
      ensures ok ==> NodesOf(ss + [s]) == NodesOf(ss) + Nodes(s) && fresh(Nodes(s))
      decreases |content| - offset, 1
    {
      hide ParseItemAt, Grown, Waiting, Forms, Nodes, NodesOf, Built;
      ghost var r := ParseItemAt(content, offset, depth);
      newHead, newItem := AttachNew(head, current, ss, trees);
      Apart(newItem, ss);
      assert allocated(NodesOf(ss));
      ok, s := ReadItem(newItem);
      if ok {
        Filled(newHead, newItem, ss, trees, s, r.value, []);
      }
    }

    /** Reads the item behind the bracket or comma, and the white space around it. */
    method ReadItem(item: Item) returns (ok: bool, ghost s: Shape)
      requires Ready() && offset + 1 < |content| && Unset(item)
      modifies this, item`content, item`child
      ensures var r := ParseItemAt(content, old(offset), old(depth));
              && Result(ok, r, old(depth)) && (ok ==> Formed(item, s, r.value, old(item.content.key)))
      ensures ok ==> fresh(NodesOf(s.subs))
      decreases |content| - offset, 0
    {
      hide ParseValueAt, Forms, Nodes, NodesOf, Built;
      offset := offset + 1;
      SkipWhitespace();
      ok, s := ParseValue(item);
      if ok {
        Apart(item, [s]);
        assert allocated(Nodes(s)) && allocated(NodesOf(s.subs));
        SkipWhitespace();
      }
    }

    /** The cursor is no part of the trees. */
    lemma Apart(item: Item, ss: seq<Shape>)
      ensures (this as object) != item && (this as object) !in NodesOf(ss)
      ensures |ss| == 1 ==> (this as object) !in Nodes(ss[0])
    {
    }

    /** The item that has been read into takes its place at the end of the chain. */
    static lemma Filled(head: Item, item: Item, ss: seq<Shape>, trees: seq<Tree>, s: Shape, v: Value, key: seq<byte>)
      requires Waiting(head, item, ss, trees) && Formed(item, s, v, key) && NodesOf(ss) !! NodesOf(s.subs)
      ensures Grown(head, item, ss + [s], trees + [Built(v, key)])
      ensures NodesOf(ss + [s]) == NodesOf(ss) + Nodes(s) && Nodes(s) == {item} + NodesOf(s.subs)
    {
      hide Built, Forms, AllRooted, TreesOf, Heads;
      BlankFilled(head, item, ss, trees, s, Built(v, key));
    }

    method ParseObject(item: Item) returns (ok: bool, ghost s: Shape)
      requires Ready() && content[offset] == LEFT_BRACE && Unset(item)
      modifies this, item`content, item`child
      ensures var r := ParseObjectAt(content, old(offset), old(depth));
              && Result(ok, r, old(depth)) && (ok ==> Formed(item, s, r.value, old(item.content.key)))
      ensures ok ==> fresh(NodesOf(s.subs))
      decreases |content| - offset, 3
    {
      hide ParseMemberAt, Grown, Forms, BuiltMembers, Nodes, NodesOf;
      s := Shape(item, []);
      if depth >= NESTING_LIMIT {
        return false, s;
      }
      depth := depth + 1;
      if !CanAccess(0) || content[offset] != LEFT_BRACE {
        return false, s;
      }
      offset := offset + 1;
      SkipWhitespace();
      var head: Item?, current: Item? := null, null;
      ghost var members, shapes := [], [];
      NothingGrown();
      if !(CanAccess(0) && content[offset] == RIGHT_BRACE) {
        assert CanAccess(0); // so the source's test for the end of the buffer never fires
        offset := offset - 1;
        ok, head, current, members, shapes := ParseMembers();
        if !ok {
          return;
        }
      }
      ok := true;
      s := CloseContainer(item, ObjectKind, head, current, shapes, BuiltMembers(members));
    }

    /** The loop of `parse_object`, to the closing brace. */
    method ParseMembers() returns (ok: bool, head: Item?, current: Item?, ghost members: seq<Member>, ghost shapes: seq<Shape>)
      requires Ready() && offset + 1 < |content|
      modifies this
      ensures var r := ParseMembersAt(content, old(offset), old(depth), []);
              && ok == r.Parsed? && depth <= NESTING_LIMIT && offset <= |content|
              && (ok ==> r == Parsed(Object(members), offset + 1) && depth == old(depth))
      ensures ok ==> Grown(head, current, shapes, BuiltMembers(members)) && fresh(NodesOf(shapes))
      decreases |content| - offset, 2
    {
      hide ParseMemberAt, Grown, BuiltMembers, Nodes, NodesOf;
      head, current, members, shapes := null, null, [], [];
      NothingGrown();
      var more := true;
      while more
        invariant old(offset) <= offset < |content| && depth == old(depth)
        invariant more ==> offset + 1 < |content|
        invariant ParseMembersAt(content, old(offset), old(depth), []) ==
                  if more then ParseMembersAt(content, offset, depth, members)
                  else if content[offset] == RIGHT_BRACE then Parsed(Object(members), offset + 1)
                  else Failed
        invariant Grown(head, current, shapes, BuiltMembers(members)) && fresh(NodesOf(shapes))
        decreases more, |content| - offset
      {
        LastIsGrown(head, current, shapes, BuiltMembers(members));
        ghost var m := ParseMemberAt(content, offset, depth);
        var made, first, last, t := ParseMember(head, current, shapes, BuiltMembers(members));
        if !made {
          ok := false;
          return;
        }
        SnocBuiltMember(members, m.member);
        head, current, members, shapes := first, last, members + [m.member], shapes + [t];
        more := CanAccess(0) && content[offset] == COMMA;
      }
      ok := CanAccess(0) && content[offset] == RIGHT_BRACE;
    }

    /** One turn of the loop of `parse_object`, up to its test for a comma. */
    method ParseMember(head: Item?, current: Item?, ghost ss: seq<Shape>, ghost trees: seq<Tree>)
      returns (ok: bool, newHead: Item?, newItem: Item?, ghost s: Shape)
      requires Ready() && offset + 1 < |content| && Grown(head, current, ss, trees)
      modifies this, Optional(current)`next
      ensures var r := ParseMemberAt(content, old(offset), old(depth));
              && MemberResult(ok, r, old(depth))
              && (ok ==> Grown(newHead, newItem, ss + [s], trees + [Built(r.member.value, r.member.key)]))
      ensures ok ==> NodesOf(ss + [s]) == NodesOf(ss) + Nodes(s) && fresh(Nodes(s))
      decreases |content| - offset, 1
    {
      hide ParseMemberAt, Grown, Waiting, Forms, Nodes, NodesOf, Built;
      ghost var r := ParseMemberAt(content, offset, depth);
      newHead, newItem := AttachNew(head, current, ss, trees);
      Apart(newItem, ss);
      assert allocated(NodesOf(ss));
      ok, s := ReadMember(newItem);
      if ok {
        Filled(newHead, newItem, ss, trees, s, r.member.value, r.member.key);
      }
    }

    ghost predicate MemberResult(ok: bool, r: NamedValue, depth0: nat)
      reads this
    {
      && ok == r.NamedValue? && (ok ==> offset == r.next && depth == depth0)
      && depth <= NESTING_LIMIT && offset <= |content|
    }

    /** Reads the name behind the brace or comma, the colon and the value, and the white space around them. */
    method ReadMember(item: Item) returns (ok: bool, ghost s: Shape)
      requires Ready() && offset + 1 < |content| && Unset(item)
      modifies this, item`content, item`child
      ensures var r := ParseMemberAt(content, old(offset), old(depth));
              && MemberResult(ok, r, old(depth)) && (ok ==> Formed(item, s, r.member.value, r.member.key))
      ensures ok ==> fresh(NodesOf(s.subs))
      decreases |content| - offset, 0
    {
      hide ParseValueAt, ParseNameAt, Forms, Nodes, NodesOf, Built, Unset;
      s := Shape(item, []);
      ok := PassName(item);
      if !ok {
        return;
      }
      ok, s := ParseValue(item);
      if ok {
        Apart(item, [s]);
        assert allocated(Nodes(s)) && allocated(NodesOf(s.subs));
        SkipWhitespace();
      }
    }

    /** To the value behind the name and its colon. */
    method PassName(item: Item) returns (ok: bool)
      requires Ready() && offset + 1 < |content| && Unset(item)
      modifies this`offset, item`content
      ensures var r := ParseNameAt(content, SkipSpace(content, old(offset) + 1));
              && ok == r.Literal? && offset <= |content|
              && (ok ==> item.content.key == r.value && Unset(item) && offset == SkipSpace(content, r.next + 1))
    {
      hide ParseNameAt, Unset;
      offset := offset + 1;
      SkipWhitespace();
      ok := ParseName(item);
      if ok {
        Apart(item, []);
        offset := offset + 1;
        SkipWhitespace();
      }
    }

    /** The part of `parse_object` that reads a name, moves it to the key, and stops at its colon. */
    method ParseName(item: Item) returns (ok: bool)
      requires Ready() && Unset(item)
      modifies this`offset, item`content
      ensures var r := ParseNameAt(content, old(offset));
              ok == r.Literal? && (ok ==> item.content.key == r.value && Unset(item) && offset == r.next)
      ensures offset <= |content|
    {
      ok := ParseString(item);
      if !ok {
        return;
      }
      SkipWhitespace();
      item.content := item.content.(key := item.content.text, text := []);
      ok := CanAccess(0) && content[offset] == COLON;
    }

    /** `cJSON_ParseWithOpts`: the root of the tree and where it ends, or where it went wrong. */
    static method ParseWithOpts(text: seq<byte>, requireNullTerminated: bool)
      returns (item: Item?, parseEnd: nat, ghost s: Shape)
      ensures item == null <==> ParseText(text, requireNullTerminated).None?
      ensures item != null ==>
                && Formed(item, s, ParseText(text, requireNullTerminated).value, []) && fresh(Nodes(s))
                && item.next == null && item.prev == null && parseEnd == EndOf(text, requireNullTerminated)
      ensures parseEnd <= |CString(text)|
    {
      hide ParseValueAt, Forms, Built, Nodes, NodesOf, CString;
      var buffer := new ParseBuffer(CString(text) + [NUL]);
      item := new Item(Own(NullKind, 0.0, 0, [], []));
      buffer.SkipUtf8Bom();
      buffer.SkipWhitespace();
      var ok;
      ok, s := buffer.ParseValue(item);
      if ok {
        NodesAre(s);
        assert allocated(Nodes(s));
      }
      if ok && requireNullTerminated {
        buffer.SkipWhitespace();
        ok := buffer.offset < |buffer.content| && buffer.content[buffer.offset] == NUL;
      }
      if !ok {
        item := null;
      }
      parseEnd := if buffer.offset < |buffer.content| then buffer.offset else |buffer.content| - 1;
    }
  }

  lemma PrependNil(rest: Option<seq<byte>>)
    ensures Prepend([], rest) == rest
  {
    if rest.Some? {
      assert [] + rest.value == rest.value;
    }
  }

  lemma PrependTwice(a: seq<byte>, b: seq<byte>, rest: Option<seq<byte>>)
    ensures Prepend(a, Prepend(b, rest)) == Prepend(a + b, rest)
    ensures Prepend(a, Some([])) == Some(a)
  {
    if rest.Some? {
      assert a + (b + rest.value) == (a + b) + rest.value;
    }
    assert a + [] == a;
  }
}
