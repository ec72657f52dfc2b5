/**
 What integer parameters mean: digits by their places, in the base their beginning chooses, held at the
 limits of 32 bits, as `strtol` and `strtoul` with base 0 are used in
 firmware/src/at_cmd_engine/at_cmds/at_cmd_parser.c.
 */
module AtIntegers {
  import opened Bytes
  import opened AtParameters

  // ----- Digits by their places -----

  /** 0 to 9, a to f, A to F; -1 for any other byte. */
  function DigitOf(c: byte): int {
    if 48 <= c <= 57 then c - 48 else if 97 <= c <= 102 then c - 87 else if 65 <= c <= 70 then c - 55 else -1
  }

  lemma DigitsAgree(c: byte)
    ensures HexDigit(c) == DigitOf(c)
  {
  }

  predicate AreDigits(t: seq<byte>, base: nat) {
    forall i :: 0 <= i < |t| ==> 0 <= DigitOf(t[i]) < base
  }

  /** The last digit counts once, each other one `base` times as much as the next. */
  function Place(t: seq<byte>, base: nat): nat
    requires AreDigits(t, base)
  {
    if t == [] then 0
    else
      assert AreDigits(t[|t| - 1..], base);
      base * Place(t[..|t| - 1], base) + DigitOf(t[|t| - 1])
  }

  lemma {:induction false} NumeralConcat(a: seq<byte>, b: seq<byte>, base: nat, acc: nat)
    requires AreDigits(a, base)
    ensures Numeral(a + b, base, acc) == Numeral(b, base, Numeral(a, base, acc))
    decreases |a|
  {
    hide HexDigit, DigitOf;
    if a == [] {
      assert a + b == b;
    } else {
      assert (a + b)[1..] == a[1..] + b;
      DigitsAgree(a[0]);
      NumeralConcat(a[1..], b, base, base * acc + HexDigit(a[0]));
    }
  }

  lemma NumeralOfOne(c: byte, base: nat, acc: nat)
    requires 0 <= DigitOf(c) < base
    ensures Numeral([c], base, acc) == base * acc + DigitOf(c)
  {
    DigitsAgree(c);
    assert [c][1..] == [];
  }

  lemma {:induction false} NumeralOfDigits(t: seq<byte>, base: nat)
    requires AreDigits(t, base)
    ensures Numeral(t, base, 0) == Place(t, base)
  {
    hide DigitOf;
    if t != [] {
      var front, last := t[..|t| - 1], t[|t| - 1];
      NumeralOfDigits(front, base);
      NumeralConcat(front, [last], base, 0);
      assert front + [last] == t;
      NumeralOfOne(last, base, Place(front, base));
    }
  }

  /** A numeral goes as far as there are digits. */
  lemma NumeralIsPlace(t: seq<byte>, rest: seq<byte>, base: nat)
    requires AreDigits(t, base) && (rest != [] ==> !(0 <= DigitOf(rest[0]) < base))
    ensures Numeral(t + rest, base, 0) == Place(t, base)
  {
    hide DigitOf;
    NumeralConcat(t, rest, base, 0);
    NumeralOfDigits(t, base);
    if rest != [] {
      DigitsAgree(rest[0]);
    }
  }

  // ----- What a text means -----

  /** How many octal digits the text begins with. */
  function OctalRun(t: seq<byte>): (n: nat)
    ensures n <= |t| && AreDigits(t[..n], 8) && (n < |t| ==> !(0 <= DigitOf(t[n]) < 8))
  {
    if t == [] || !(48 <= t[0] <= 55) then 0
    else
      var n := 1 + OctalRun(t[1..]);
      assert t[..n] == [t[0]] + t[1..][..n - 1];
      n
  }

  /** Digits without a sign: octal from a zero on, as far as that goes, and else decimal. */
  function Amount(digits: seq<byte>): nat
    requires AreDigits(digits, 10)
  {
    if digits != [] && digits[0] == 48 then Place(digits[..OctalRun(digits)], 8) else Place(digits, 10)
  }

  function AtMost(n: nat): int { if n > 4294967295 then 4294967295 else n }

  function AtLeast(n: int): int { if n < -2147483648 then -2147483648 else n }

  function HexadecimalValue(digits: seq<byte>): int
    requires AreDigits(digits, 16)
  {
    AtMost(Place(digits, 16))
  }

  /** A sign, if there is one, and digits. */
  function DecimalValue(t: seq<byte>): int
    requires t != [] && (t[0] == 45 || AreDigits(t[..1], 10)) && AreDigits(t[1..], 10)
  {
    if t[0] == 45 then AtLeast(-(Amount(t[1..]) as int))
    else
      assert AreDigits(t, 10) by { DigitsJoin(t); }
      AtMost(Amount(t))
  }

  lemma DigitsJoin(t: seq<byte>)
    requires t != [] && AreDigits(t[..1], 10) && AreDigits(t[1..], 10)
    ensures AreDigits(t, 10)
  {
    assert t == t[..1] + t[1..];
  }

  lemma AmountIs(digits: seq<byte>)
    requires AreDigits(digits, 10)
    ensures Magnitude(digits) == Amount(digits)
  {
    if digits != [] && digits[0] == 48 {
      var n := OctalRun(digits);
      assert digits == digits[..n] + digits[n..];
      NumeralIsPlace(digits[..n], digits[n..], 8);
      assert |digits| > 1 ==> 0 <= DigitOf(digits[1]) < 10;
    } else {
      assert digits + [] == digits;
      NumeralIsPlace(digits, [], 10);
    }
  }

  lemma DecimalIs(t: seq<byte>)
    requires t != [] && (t[0] == 45 || AreDigits(t[..1], 10)) && AreDigits(t[1..], 10)
    ensures IntegerValue(t) == DecimalValue(t)
  {
    hide Magnitude, Amount, DigitOf;
    if t[0] == 45 {
      AmountIs(t[1..]);
    } else {
      DigitsJoin(t);
      AmountIs(t);
    }
  }

  lemma HexadecimalIs(x: byte, digits: seq<byte>)
    requires (x == 120 || x == 88) && digits != [] && AreDigits(digits, 16)
    ensures IntegerValue([48, x] + digits) == HexadecimalValue(digits)
  {
    hide DigitOf;
    var t := [48, x] + digits;
    assert t[2..] == digits && digits + [] == digits;
    NumeralIsPlace(digits, [], 16);
  }

  // ----- Every number has a text -----

  /** The digit of a value, in either case. */
  function DigitFor(d: nat, upper: bool): (c: byte)
    requires d < 16
    ensures DigitOf(c) == d
  {
    if d < 10 then 48 + d else if upper then 55 + d else 87 + d
  }

  function WrittenIn(n: nat, base: nat, upper: bool): (t: seq<byte>)
    requires 2 <= base <= 16
    ensures t != [] && AreDigits(t, base)
    decreases n
  {
    if n < base then [DigitFor(n, upper)] else WrittenIn(n / base, base, upper) + [DigitFor(n % base, upper)]
  }

  function Zeros(k: nat): seq<byte> {
    seq(k, i => 48)
  }

  lemma {:induction false} WrittenHasItsPlace(n: nat, base: nat, upper: bool)
    requires 2 <= base <= 16
    ensures Place(WrittenIn(n, base, upper), base) == n
    decreases n
  {
    hide DigitFor, DigitOf, Place, AreDigits;
    var t := WrittenIn(n, base, upper);
    if n < base {
      PlaceSnoc([], DigitFor(n, upper), base);
      assert [] + [DigitFor(n, upper)] == t;
    } else {
      WrittenHasItsPlace(n / base, base, upper);
      PlaceSnoc(WrittenIn(n / base, base, upper), DigitFor(n % base, upper), base);
      Divided(n, base);
    }
  }

  lemma Divided(n: nat, base: nat)
    requires base > 0
    ensures base * (n / base) + n % base == n
  {
  }

  lemma PlaceSnoc(t: seq<byte>, c: byte, base: nat)
    requires AreDigits(t, base) && 0 <= DigitOf(c) < base
    ensures AreDigits(t + [c], base) && Place(t + [c], base) == base * Place(t, base) + DigitOf(c)
    ensures Place([], base) == 0
  {
    assert (t + [c])[..|t|] == t;
  }

  lemma {:induction false} ZerosDoNotCount(k: nat, t: seq<byte>, base: nat)
    requires base >= 1 && AreDigits(t, base)
    ensures AreDigits(Zeros(k) + t, base) && Place(Zeros(k) + t, base) == Place(t, base)
    decreases k + |t|
  {
    hide DigitOf;
    var all := Zeros(k) + t;
    assert AreDigits(all, base) by { ZerosAreDigits(k, t, base); }
    if t != [] {
      var front := t[..|t| - 1];
      ZerosDoNotCount(k, front, base);
      assert all[..|all| - 1] == Zeros(k) + front;
    } else if k > 0 {
      ZerosDoNotCount(k - 1, [], base);
      assert all[..|all| - 1] == Zeros(k - 1) + [];
      assert DigitOf(all[|all| - 1]) == 0 by { ZeroDigit(); }
    }
  }

  lemma ZeroDigit()
    ensures DigitOf(48) == 0
  {
  }

  lemma ZerosAreDigits(k: nat, t: seq<byte>, base: nat)
    requires base >= 1 && AreDigits(t, base)
    ensures AreDigits(Zeros(k) + t, base)
  {
  }

  /** Every number up to the limit, in hexadecimal digits of either case behind zeros, means itself. */
  lemma HexadecimalMeansItself(n: nat, zeros: nat, upper: bool)
    ensures AreDigits(Zeros(zeros) + WrittenIn(n, 16, upper), 16)
    ensures HexadecimalValue(Zeros(zeros) + WrittenIn(n, 16, upper)) == AtMost(n)
  {
    WrittenHasItsPlace(n, 16, upper);
    ZerosDoNotCount(zeros, WrittenIn(n, 16, upper), 16);
  }

  /** And in octal digits behind at least one zero, with a minus sign or without. */
  lemma OctalMeansItself(n: nat, zeros: nat)
    requires zeros > 0
    ensures var t := Zeros(zeros) + WrittenIn(n, 8, false);
            && AreDigits(t, 10) && AreDigits(t[..1], 10) && AreDigits(t[1..], 10)
            && DecimalValue(t) == AtMost(n)
            && ([45] + t)[1..] == t && DecimalValue([45] + t) == AtLeast(-(n as int))
  {
    hide WrittenIn;
    var t := Zeros(zeros) + WrittenIn(n, 8, false);
    WrittenHasItsPlace(n, 8, false);
    ZerosDoNotCount(zeros, WrittenIn(n, 8, false), 8);
    EightInTen(t);
    assert t[..OctalRun(t)] == t by { AllOctal(t); }
    assert t[0] == 48;
    assert ([45] + t)[1..] == t;
  }

  lemma EightInTen(t: seq<byte>)
    requires AreDigits(t, 8)
    ensures AreDigits(t, 10)
  {
  }

  lemma {:induction false} AllOctal(t: seq<byte>)
    requires AreDigits(t, 8)
    ensures OctalRun(t) == |t|
  {
    if t != [] {
      AllOctal(t[1..]);
    }
  }
}
