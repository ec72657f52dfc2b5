/**
 Number literals (section 6 of RFC 8259), and what `parse_number` of firmware/src/cJSON.c makes of them.
 */
module JsonNumber {
  import opened Bytes
  import opened JsonValue
  import opened JsonParser

  /** The exponent: its letter, its sign if written, its digits. */
  datatype Power = NoPower | Power(letter: byte, sign: Option<byte>, digits: seq<byte>)

  /** Sign, digits, the digits behind a point if there is one, exponent. */
  datatype Literal = Literal(negative: bool, whole: seq<byte>, fraction: Option<seq<byte>>, power: Power)

  predicate Digitful(t: seq<byte>) {
    t != [] && AllDigits(t)
  }

  /** What `strtod` reads: there may be no digits on one side of a point. */
  predicate Accepted(n: Literal) {
    && AllDigits(n.whole) && (n.fraction.Some? ==> AllDigits(n.fraction.value))
    && |n.whole| + |FractionDigits(n.fraction)| > 0
    && (n.power.Power? ==>
          && (n.power.letter == LOWER_E || n.power.letter == UPPER_E)
          && (n.power.sign.Some? ==> n.power.sign.value == PLUS || n.power.sign.value == MINUS)
          && Digitful(n.power.digits))
  }

  /** The literals of RFC 8259, and with leading zeros. */
  predicate WellFormed(n: Literal) {
    Accepted(n) && n.whole != [] && (n.fraction.Some? ==> n.fraction.value != [])
  }

  function PowerText(p: Power): seq<byte> {
    if p.NoPower? then []
    else [p.letter] + (if p.sign.Some? then [p.sign.value] else []) + p.digits
  }

  function FractionText(f: Option<seq<byte>>): seq<byte> {
    if f.None? then [] else [DOT] + f.value
  }

  function SignText(negative: bool): seq<byte> {
    if negative then [MINUS] else []
  }

  function LiteralText(n: Literal): seq<byte> {
    SignText(n.negative) + (n.whole + (FractionText(n.fraction) + PowerText(n.power)))
  }

  function FractionDigits(f: Option<seq<byte>>): seq<byte> {
    if f.None? then [] else f.value
  }

  function PowerValue(p: Power): int
    requires p.Power? ==> AllDigits(p.digits)
  {
    if p.NoPower? then 0
    else if p.sign == Some(MINUS) then -(DigitsValue(p.digits) as int)
    else DigitsValue(p.digits)
  }

  lemma AllDigitsConcat(a: seq<byte>, b: seq<byte>)
    requires AllDigits(a) && AllDigits(b)
    ensures AllDigits(a + b)
  {
  }

  /** All the digits as one number, times ten to the exponent less the digits behind the point. */
  function LiteralValue(n: Literal): real
    requires Accepted(n)
  {
    var f := FractionDigits(n.fraction);
    AllDigitsConcat(n.whole, f);
    var m: int := DigitsValue(n.whole + f);
    Scaled(if n.negative then -m else m, PowerValue(n.power) - |f|)
  }

  lemma DigitsValueSplit(t: seq<byte>)
    requires AllDigits(t) && t != []
    ensures AllDigits(t[..|t| - 1]) && DigitsValue(t) == 10 * DigitsValue(t[..|t| - 1]) + (t[|t| - 1] - ZERO)
  {
  }

  lemma {:induction false} DigitsValueConcat(a: seq<byte>, b: seq<byte>)
    requires AllDigits(a) && AllDigits(b)
    ensures AllDigits(a + b) && DigitsValue(a + b) == DigitsValue(a) * Pow10(|b|) + DigitsValue(b)
    decreases |b|
  {
    hide DigitsValue;
    AllDigitsConcat(a, b);
    if b == [] {
      assert a + b == a && Pow10(0) == 1;
      NoDigitsValue();
    } else {
      var front := b[..|b| - 1];
      DigitsValueSplit(b);
      DigitsValueConcat(a, front);
      assert (a + b)[..|a + b| - 1] == a + front && (a + b)[|a + b| - 1] == b[|b| - 1];
      DigitsValueSplit(a + b);
      MoreTimes(DigitsValue(a), Pow10(|front|));
    }
  }

  lemma NoDigitsValue()
    ensures AllDigits([]) && DigitsValue([]) == 0
  {
  }

  lemma MoreTimes(x: int, y: int)
    ensures 10 * (x * y) == x * (10 * y)
  {
  }

  predicate Stops(rest: seq<byte>) {
    rest == [] || !IsDigit(rest[0])
  }

  lemma {:induction false} RunIs(s: seq<byte>, p: nat, d: seq<byte>, rest: seq<byte>)
    requires p <= |s| && s[p..] == d + rest && AllDigits(d) && Stops(rest)
    ensures DigitRun(s, p) == |d| && |s| == p + |d| + |rest|
    ensures s[p..p + |d|] == d && s[p + |d|..] == rest
    decreases |d|
  {
    assert |s| == p + |d| + |rest|;
    assert s[p..p + |d|] == s[p..][..|d|];
    assert s[p + |d|..] == s[p..][|d|..];
    if d == [] {
      assert rest != [] ==> s[p] == rest[0];
    } else {
      assert s[p] == d[0];
      assert s[p + 1..] == s[p..][1..];
      RunIs(s, p + 1, d[1..], rest);
    }
  }

  lemma PowerReads(s: seq<byte>, q: nat, p: Power)
    requires q <= |s| && s[q..] == PowerText(p)
    requires p.Power? ==> (p.letter == LOWER_E || p.letter == UPPER_E) && Digitful(p.digits)
    requires p.Power? && p.sign.Some? ==> p.sign.value == PLUS || p.sign.value == MINUS
    ensures Exponent(s, q) == (PowerValue(p), |s|)
  {
    hide DigitRun, DigitsValue;
    if p.Power? {
      var t := s[q..];
      assert s[q] == t[0];
      var k := if p.sign.Some? then 2 else 1;
      assert s[q + 1] == t[1];
      assert IsDigit(p.digits[0]);
      assert s[q + k..] == t[k..];
      assert t[k..] == p.digits + [];
      RunIs(s, q + k, p.digits, []);
    }
  }

  /** Where the point or the exponent begins, and where the exponent. */
  function WholeEnd(n: Literal): nat {
    |SignText(n.negative)| + |n.whole|
  }

  function FractionEnd(n: Literal): nat {
    WholeEnd(n) + |FractionText(n.fraction)|
  }

  lemma WholeReads(n: Literal)
    requires Accepted(n)
    ensures var t, p, k := LiteralText(n), |SignText(n.negative)|, WholeEnd(n);
            && p <= k <= |t| && t != [] && (IsSign(t, 0) <==> n.negative) && (t[0] == MINUS <==> n.negative)
            && DigitRun(t, p) == |n.whole| && t[p..k] == n.whole
            && t[k..] == FractionText(n.fraction) + PowerText(n.power)
  {
    hide DigitRun, PowerText;
    var t, p, rest := LiteralText(n), |SignText(n.negative)|, FractionText(n.fraction) + PowerText(n.power);
    PowerStops(n.power);
    assert t[p..] == n.whole + rest;
    assert n.whole != [] ==> IsDigit(n.whole[0]);
    assert n.whole == [] ==> rest[0] == DOT;
    assert t[0] == if n.negative then MINUS else if n.whole != [] then n.whole[0] else rest[0];
    RunIs(t, p, n.whole, rest);
  }

  lemma PointReads(t: seq<byte>, k: nat, f: seq<byte>, rest: seq<byte>)
    requires k <= |t| && t[k..] == [DOT] + f + rest && AllDigits(f) && Stops(rest)
    ensures k + 1 + |f| <= |t| && t[k] == DOT && DigitRun(t, k + 1) == |f|
    ensures t[k + 1..k + 1 + |f|] == f && t[k + 1 + |f|..] == rest
  {
    hide DigitRun;
    assert t[k] == t[k..][0];
    assert t[k + 1..] == t[k..][1..];
    assert t[k + 1..] == f + rest;
    RunIs(t, k + 1, f, rest);
  }

  /** The fraction's text, if there is one, and the exponent's behind it. */
  lemma FractionSplits(f: Option<seq<byte>>, rest: seq<byte>)
    ensures f.Some? ==> FractionText(f) + rest == [DOT] + f.value + rest && |FractionText(f)| == 1 + |f.value|
    ensures f.None? ==> FractionText(f) + rest == rest && |FractionText(f)| == 0
  {
  }

  /** A fraction stands from k to q, or none, and then the rest. */
  ghost predicate Pointed(t: seq<byte>, k: nat, q: nat, f: Option<seq<byte>>, rest: seq<byte>) {
    && k <= q <= |t| && (k < |t| && t[k] == DOT <==> f.Some?)
    && (f.Some? ==> q == k + 1 + |f.value| && DigitRun(t, k + 1) == q - k - 1 && t[k + 1..q] == f.value)
    && (f.None? ==> q == k)
    && t[q..] == rest
  }

  lemma FractionReads(n: Literal)
    requires Accepted(n)
    ensures Pointed(LiteralText(n), WholeEnd(n), FractionEnd(n), n.fraction, PowerText(n.power))
  {
    hide DigitRun, PowerText, FractionText, LiteralText, Stops, AllDigits, SignText, WholeEnd, Pointed;
    WholeReads(n);
    PowerStops(n.power);
    FractionStands(LiteralText(n), WholeEnd(n), n.fraction, PowerText(n.power));
  }

  lemma FractionStands(t: seq<byte>, k: nat, f: Option<seq<byte>>, rest: seq<byte>)
    requires k <= |t| && Stops(rest) && (rest != [] ==> rest[0] != DOT) && (f.Some? ==> AllDigits(f.value))
    requires t[k..] == FractionText(f) + rest
    ensures Pointed(t, k, k + |FractionText(f)|, f, rest)
  {
    hide DigitRun, Stops, AllDigits, FractionText;
    FractionSplits(f, rest);
    if f.Some? {
      PointReads(t, k, f.value, rest);
    } else {
      assert k < |t| ==> t[k] == t[k..][0];
    }
  }

  /** A sign, digits, and a point with digits stand at these places, or no point. */
  ghost predicate LaidOut(s: seq<byte>, p: nat, k: nat, q: nat, fraction: Option<seq<byte>>) {
    && s != [] && p == (if IsSign(s, 0) then 1 else 0) && p <= k <= q <= |s| && DigitRun(s, p) == k - p
    && (k < |s| && s[k] == DOT <==> fraction.Some?)
    && (fraction.Some? ==> k < q && DigitRun(s, k + 1) == q - k - 1 && s[k + 1..q] == fraction.value)
    && (fraction.None? ==> q == k)
    && AllDigits(s[p..k]) && AllDigits(FractionDigits(fraction)) && (k - p) + |FractionDigits(fraction)| > 0
  }

  function Mantissa(whole: seq<byte>, fraction: seq<byte>): int
    requires AllDigits(whole) && AllDigits(fraction)
  {
    DigitsValue(whole) * Pow10(|fraction|) + DigitsValue(fraction)
  }

  /** What `strtod` makes of such a text. */
  lemma StrToDIs(s: seq<byte>, p: nat, k: nat, q: nat, fraction: Option<seq<byte>>)
    requires LaidOut(s, p, k, q, fraction)
    ensures var f := FractionDigits(fraction);
            var m := Mantissa(s[p..k], f);
            StrToD(s) == Converted(Scaled(if s[0] == MINUS then -m else m, Exponent(s, q).0 - |f|), Exponent(s, q).1)
  {
    hide DigitRun, DigitsValue, Exponent, Scaled, Pow10, AllDigits, IsSign;
  }

  lemma LiteralIsLaidOut(n: Literal)
    requires Accepted(n)
    ensures var t, p, k, q := LiteralText(n), |SignText(n.negative)|, WholeEnd(n), FractionEnd(n);
            && LaidOut(t, p, k, q, n.fraction) && t[p..k] == n.whole && (t[0] == MINUS <==> n.negative)
            && Exponent(t, q) == (PowerValue(n.power), |t|)
  {
    hide DigitRun, DigitsValue, Exponent, PowerText, LiteralText, IsSign, AllDigits, PowerValue, WholeEnd, FractionEnd;
    WholeReads(n);
    FractionReads(n);
    PowerReads(LiteralText(n), FractionEnd(n), n.power);
    NoDigitsValue();
  }

  /** What the digits, the point and the exponent come to. */
  lemma LiteralConverts(n: Literal)
    requires Accepted(n)
    ensures StrToD(LiteralText(n)) == Converted(LiteralValue(n), |LiteralText(n)|)
  {
    hide StrToD, Mantissa, Exponent, Scaled, LiteralText, LiteralValue, AllDigits, PowerValue, WholeEnd, FractionEnd, SignText;
    LiteralIsLaidOut(n);
    ValueOfParts(n);
    StrToDIs(LiteralText(n), |SignText(n.negative)|, WholeEnd(n), FractionEnd(n), n.fraction);
  }

  lemma PowerStops(p: Power)
    requires p.Power? ==> p.letter == LOWER_E || p.letter == UPPER_E
    ensures Stops(PowerText(p)) && (PowerText(p) != [] ==> PowerText(p)[0] != DOT)
  {
  }

  lemma LiteralIsNumberBytes(n: Literal)
    requires Accepted(n)
    ensures |LiteralText(n)| > 0
    ensures forall i :: 0 <= i < |LiteralText(n)| ==> IsNumberByte(LiteralText(n)[i])
  {
  }

  lemma {:induction false} NumberRunWhole(c: seq<byte>, p: nat, t: seq<byte>, limit: nat)
    requires At(c, p, t) && |t| <= limit && p + |t| < |c| && !IsNumberByte(c[p + |t|])
    requires forall i :: 0 <= i < |t| ==> IsNumberByte(t[i])
    ensures NumberRun(c, p, limit) == |t|
    decreases |t|
  {
    if t != [] {
      AtIndex(c, p, t, 0);
      assert t == [t[0]] + t[1..];
      AtConcat(c, p, [t[0]], t[1..]);
      NumberRunWhole(c, p + 1, t[1..], limit - 1);
    }
  }

  lemma NumberParses(c: seq<byte>, off: nat, t: seq<byte>, number: real)
    requires At(c, off, t) && 0 < |t| == NumberRun(c, off, NUMBER_LIMIT) && StrToD(t) == Converted(number, |t|)
    ensures ParseNumberAt(c, off) == Parsed(Number(number), off + |t|)
  {
    hide StrToD, NumberRun;
  }

  /** Every number literal of at most 63 bytes is read whole, and as its value. */
  lemma LiteralParses(c: seq<byte>, off: nat, n: Literal)
    requires Accepted(n) && At(c, off, LiteralText(n)) && |LiteralText(n)| <= NUMBER_LIMIT
    requires off + |LiteralText(n)| < |c| && !IsNumberByte(c[off + |LiteralText(n)|])
    ensures ParseNumberAt(c, off) == Parsed(Number(LiteralValue(n)), off + |LiteralText(n)|)
  {
    hide StrToD, NumberRun, LiteralText, LiteralValue;
    LiteralConverts(n);
    LiteralIsNumberBytes(n);
    NumberRunWhole(c, off, LiteralText(n), NUMBER_LIMIT);
    NumberParses(c, off, LiteralText(n), LiteralValue(n));
  }

  // ----- The longest literal is read, and nothing else -----

  /** Digits, as far as they go. */
  lemma RunCut(s: seq<byte>, p: nat)
    requires p <= |s|
    ensures AllDigits(s[p..p + DigitRun(s, p)])
  {
  }

  lemma Cut(s: seq<byte>, a: nat, b: nat, c: nat)
    requires a <= b <= c <= |s|
    ensures s[a..c] == s[a..b] + s[b..c]
  {
  }

  lemma CutOne(s: seq<byte>, a: nat, b: nat)
    requires a < b <= |s|
    ensures s[a..b] == [s[a]] + s[a + 1..b]
  {
  }

  lemma PowerDerives(s: seq<byte>, q: nat) returns (p: Power)
    requires q <= |s|
    ensures PowerText(p) == s[q..Exponent(s, q).1]
    ensures p.Power? ==>
              && (p.letter == LOWER_E || p.letter == UPPER_E) && Digitful(p.digits)
              && (p.sign.Some? ==> p.sign.value == PLUS || p.sign.value == MINUS)
    ensures PowerValue(p) == Exponent(s, q).0
  {
    hide DigitRun, DigitsValue, AllDigits, PowerText;
    p := NoPower;
    NoPowerText();
    if q < |s| && (s[q] == LOWER_E || s[q] == UPPER_E) {
      var signed := IsSign(s, q + 1);
      var k := if signed then q + 2 else q + 1;
      var n := DigitRun(s, k);
      if n > 0 {
        RunCut(s, k);
        PowerTextIs(s, q, signed, k + n);
        p := Power(s[q], if signed then Some(s[q + 1]) else None, s[k..k + n]);
      }
    }
  }

  lemma NoPowerText()
    ensures PowerText(NoPower) == []
  {
  }

  lemma PowerTextIs(s: seq<byte>, q: nat, signed: bool, end: nat)
    requires (if signed then q + 2 else q + 1) <= end <= |s|
    ensures PowerText(Power(s[q], if signed then Some(s[q + 1]) else None, s[if signed then q + 2 else q + 1..end])) == s[q..end]
  {
    CutOne(s, q, end);
    if signed {
      CutOne(s, q + 1, end);
    }
  }

  /** The places where `strtod` changes from one part to the next. */
  lemma ConvertedParts(s: seq<byte>, p: nat, k: nat, q: nat, end: nat, fraction: Option<seq<byte>>, power: Power)
    requires p <= 1 && p <= k <= q <= end <= |s| && (p == 1 ==> s[0] == MINUS)
    requires if fraction.Some? then k < q && s[k] == DOT && fraction.value == s[k + 1..q] else k == q
    requires PowerText(power) == s[q..end]
    ensures LiteralText(Literal(p == 1, s[p..k], fraction, power)) == s[..end]
  {
    hide PowerText;
    Cut(s, 0, p, end);
    Cut(s, p, k, end);
    Cut(s, k, q, end);
    if k < q {
      CutOne(s, k, q);
    }
    assert s[0..p] == SignText(p == 1);
    assert s[..end] == s[0..end];
  }

  /** The sign, the digits, the point and its digits, as `strtod` takes them. */
  lemma StrToDParts(s: seq<byte>) returns (p: nat, k: nat, q: nat, fraction: Option<seq<byte>>)
    requires s != [] && s[0] != PLUS && StrToD(s).Converted?
    ensures p <= 1 && p <= k <= q <= |s| && (p == 1 <==> s[0] == MINUS)
    ensures if fraction.Some? then k < q && s[k] == DOT && fraction.value == s[k + 1..q] else k == q
    ensures var f := FractionDigits(fraction);
            && AllDigits(s[p..k]) && AllDigits(f) && (k - p) + |f| > 0
            && var m := Mantissa(s[p..k], f);
            StrToD(s) == Converted(Scaled(if s[0] == MINUS then -m else m, Exponent(s, q).0 - |f|), Exponent(s, q).1)
  {
    hide DigitRun, Mantissa, Exponent, Scaled, AllDigits;
    p := if IsSign(s, 0) then 1 else 0;
    k := p + DigitRun(s, p);
    RunCut(s, p);
    NoDigitsValue();
    if k < |s| && s[k] == DOT {
      q := k + 1 + DigitRun(s, k + 1);
      fraction := Some(s[k + 1..q]);
      RunCut(s, k + 1);
    } else {
      q, fraction := k, None;
    }
    StrToDIs(s, p, k, q, fraction);
  }

  /** What is converted is a literal that stands at the start, with its value. */
  lemma ConvertedIsLiteral(s: seq<byte>) returns (n: Literal)
    requires s != [] && s[0] != PLUS && StrToD(s).Converted?
    ensures Accepted(n) && LiteralText(n) == s[..StrToD(s).used] && LiteralValue(n) == StrToD(s).number
  {
    hide StrToD, DigitRun, Mantissa, Exponent, Scaled, LiteralText, LiteralValue, PowerText, AllDigits, PowerValue;
    var p, k, q, fraction := StrToDParts(s);
    var power := PowerDerives(s, q);
    n := Literal(p == 1, s[p..k], fraction, power);
    ConvertedParts(s, p, k, q, Exponent(s, q).1, fraction, power);
    ValueOfParts(n);
  }

  lemma ValueOfParts(n: Literal)
    requires Accepted(n)
    ensures var f := FractionDigits(n.fraction);
            var m := Mantissa(n.whole, f);
            LiteralValue(n) == Scaled(if n.negative then -m else m, PowerValue(n.power) - |f|)
  {
    hide DigitsValue, Scaled, PowerValue;
    DigitsValueConcat(n.whole, FractionDigits(n.fraction));
  }

  /** A literal at the start is not longer than what is converted. */
  lemma LiteralIsNotLonger(s: seq<byte>, n: Literal)
    requires Accepted(n) && LiteralText(n) <= s
    ensures StrToD(s).Converted? && |LiteralText(n)| <= StrToD(s).used
  {
    hide Accepted, DigitRun, DigitsValue, Exponent, Scaled, Pow10, LiteralText, PowerText, FractionText, WholeEnd, FractionEnd;
    var p, k, q := |SignText(n.negative)|, WholeEnd(n), FractionEnd(n);
    LiteralInFront(s, n);
    if DigitRun(s, p) == k - p && n.fraction.Some? && DigitRun(s, k + 1) == q - k - 1 && n.power.Power? {
      LiteralPower(s, n);
    } else if DigitRun(s, p) == k - p && n.fraction.None? && n.power.Power? {
      LiteralPower(s, n);
    }
  }

  /** The runs of digits of a text are no longer than the literal's, unless it ends in them. */
  lemma LiteralInFront(s: seq<byte>, n: Literal)
    requires Accepted(n) && LiteralText(n) <= s
    ensures var p, k, q, end := |SignText(n.negative)|, WholeEnd(n), FractionEnd(n), |LiteralText(n)|;
            && 0 < end <= |s| && p <= k <= q <= end && (n.power.NoPower? ==> q == end)
            && (IsSign(s, 0) <==> n.negative)
            && (p == if n.negative then 1 else 0)
            && DigitRun(s, p) >= k - p && (DigitRun(s, p) > k - p ==> k == end)
            && (n.fraction.Some? ==>
                  && k < q && s[k] == DOT && DigitRun(s, k + 1) >= q - k - 1
                  && (DigitRun(s, k + 1) > q - k - 1 ==> q == end))
            && (n.fraction.None? ==> k == q && k - p > 0)
            && (n.power.Power? ==> q < end && (s[q] == LOWER_E || s[q] == UPPER_E))
            && (n.fraction.Some? ==> (k - p) + (q - k - 1) > 0)
  {
    hide DigitRun, LiteralText, IsDigit, AllDigits, PowerText;
    WholeReads(n);
    FractionReads(n);
    PowerBegins(n.power);
    var t, p, k, q := LiteralText(n), |SignText(n.negative)|, WholeEnd(n), FractionEnd(n);
    assert s[0] == t[0];
    RunGrows(t, s, p);
    RunEnds(t, s, p);
    if n.fraction.Some? {
      assert s[k] == t[k];
      RunGrows(t, s, k + 1);
      RunEnds(t, s, k + 1);
    }
    if n.power.Power? {
      assert s[q] == t[q] == t[q..][0];
    }
  }

  lemma PowerBegins(p: Power)
    ensures p.NoPower? ==> PowerText(p) == []
    ensures p.Power? ==> PowerText(p) != [] && PowerText(p)[0] == p.letter
  {
  }

  lemma LiteralPower(s: seq<byte>, n: Literal)
    requires Accepted(n) && LiteralText(n) <= s && n.power.Power?
    ensures FractionEnd(n) <= |s| && Exponent(s, FractionEnd(n)).1 >= |LiteralText(n)|
  {
    hide LiteralText, Exponent, PowerText, IsDigit;
    FractionReads(n);
    PowerGrows(LiteralText(n), s, FractionEnd(n), n.power);
  }

  lemma {:induction false} RunGrows(t: seq<byte>, s: seq<byte>, p: nat)
    requires t <= s && p <= |t|
    ensures DigitRun(t, p) <= DigitRun(s, p)
    decreases |t| - p
  {
    if p < |t| && IsDigit(t[p]) {
      RunGrows(t, s, p + 1);
    }
  }

  /** More digits follow only when the text ends in digits. */
  lemma RunEnds(t: seq<byte>, s: seq<byte>, p: nat)
    requires t <= s && p <= |t|
    ensures DigitRun(s, p) > DigitRun(t, p) ==> p + DigitRun(t, p) == |t|
  {
  }

  lemma PowerGrows(t: seq<byte>, s: seq<byte>, q: nat, p: Power)
    requires t <= s && q <= |t| && t[q..] == PowerText(p) && p.Power?
    requires (p.letter == LOWER_E || p.letter == UPPER_E) && Digitful(p.digits)
    requires p.sign.Some? ==> p.sign.value == PLUS || p.sign.value == MINUS
    ensures Exponent(s, q).1 >= |t|
  {
    hide DigitsValue;
    var k := if p.sign.Some? then 2 else 1;
    assert s[q] == t[q..][0] && s[q + 1] == t[q..][1];
    assert IsDigit(p.digits[0]);
    assert t[q + k..] == t[q..][k..] == p.digits + [];
    RunIs(t, q + k, p.digits, []);
    RunGrows(t, s, q + k);
  }

  /** The literal of that length, and no longer one, stands at the start. */
  ghost predicate Longest(s: seq<byte>, k: nat) {
    forall n :: Accepted(n) && LiteralText(n) <= s ==> |LiteralText(n)| <= k
  }

  ghost predicate LongestLiteral(s: seq<byte>, v: real, k: nat) {
    k <= |s| && Longest(s, k) && exists n :: Accepted(n) && LiteralText(n) == s[..k] && LiteralValue(n) == v
  }

  /** `strtod` reads exactly the longest literal at the start. */
  lemma LongestIsConverted(s: seq<byte>, v: real, k: nat)
    requires s != [] && s[0] != PLUS
    ensures StrToD(s) == Converted(v, k) <==> LongestLiteral(s, v, k)
  {
    hide StrToD, LiteralText, LiteralValue, Accepted;
    if StrToD(s) == Converted(v, k) {
      var n := ConvertedIsLiteral(s);
      forall m | Accepted(m) && LiteralText(m) <= s ensures |LiteralText(m)| <= k { LiteralIsNotLonger(s, m); }
    }
    if LongestLiteral(s, v, k) {
      var n :| Accepted(n) && LiteralText(n) == s[..k] && LiteralValue(n) == v;
      LiteralIsNotLonger(s, n);
      var m := ConvertedIsLiteral(s);
      LiteralConverts(n);
      LiteralConverts(m);
    }
  }

  /** Ten to the exponent, up and down. */
  lemma ScaledByTen(m: int, e: int)
    ensures Scaled(m, 0) == m as real && Scaled(m, e + 1) == 10.0 * Scaled(m, e)
  {
    assert Pow10(0) == 1;
    if e >= 0 {
      assert Pow10(e + 1) == 10 * Pow10(e);
      MoreTimes(m, Pow10(e));
    } else {
      assert Pow10(-e) == 10 * Pow10(-e - 1);
      Tenth(m as real, Pow10(-e - 1) as real);
    }
  }

  lemma Tenth(x: real, y: real)
    requires y > 0.0
    ensures x / y == 10.0 * (x / (10.0 * y))
  {
  }

  // ----- Printed integers are number literals -----

  lemma {:induction false} DigitsReadBack(n: nat)
    ensures AllDigits(Digits(n)) && DigitsValue(Digits(n)) == n
  {
    if n < 10 {
      assert Digits(n)[..0] == [];
    } else {
      DigitsReadBack(n / 10);
      var t := Digits(n);
      assert t[..|t| - 1] == Digits(n / 10);
    }
  }

  function IntegerLiteral(n: int): Literal {
    Literal(n < 0, Digits(if n < 0 then -n else n), None, NoPower)
  }

  lemma IntegerIsLiteral(n: int)
    ensures WellFormed(IntegerLiteral(n)) && Accepted(IntegerLiteral(n)) && LiteralText(IntegerLiteral(n)) == IntegerText(n)
    ensures LiteralValue(IntegerLiteral(n)) == n as real
  {
    var d := Digits(if n < 0 then -n else n);
    DigitsReadBack(if n < 0 then -n else n);
    assert d + [] == d && Pow10(0) == 1;
  }
}
