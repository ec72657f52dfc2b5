/**
 The CRC of firmware/src/at_cmd_engine/at_cmds/at_cmd_xmodem.c: a 16-bit register fed byte by byte,
 what it has to do with division by x^16 + x^12 + x^5 + 1, and which errors it detects.
 */
module Crc {
  type octet = bv8

  // ----- The register -----

  predicate TopBit(p: bv16) {
    p & 0x8000 != 0
  }

  function Up(p: bv16): bv16 {
    p << 1
  }

  function Xor(a: bv16, b: bv16): bv16 {
    a ^ b
  }

  /** One turn of the inner loop. */
  function Shift(r: bv16): bv16 {
    if TopBit(r) then Xor(Up(r), 0x1021) else Up(r)
  }

  function Shifts(r: bv16, n: nat): bv16
    decreases n
  {
    if n == 0 then r else Shifts(Shift(r), n - 1)
  }

  /** The register after a bit that enters at its top. */
  function FeedBit(r: bv16, b: bool): bv16 {
    Shift(Xor(r, Incoming(b)))
  }

  function Incoming(b: bool): bv16 {
    if b then 0x8000 else 0
  }

  function Feed(r: bv16, bits: seq<bool>): bv16
    decreases |bits|
  {
    if bits == [] then r else Feed(FeedBit(r, bits[0]), bits[1..])
  }

  /** The first n bits of a word, most significant first. */
  function TopBits(p: bv16, n: nat): (t: seq<bool>)
    ensures |t| == n
    decreases n
  {
    if n == 0 then [] else [TopBit(p)] + TopBits(Up(p), n - 1)
  }

  /** What is left of a word when n bits have gone out at the top. */
  function Left(p: bv16, n: nat): bv16
    decreases n
  {
    if n == 0 then p else Left(Up(p), n - 1)
  }

  function High(b: octet): bv16 {
    (b as bv16) << 8
  }

  function Word(high: octet, low: octet): bv16 {
    High(high) | (low as bv16)
  }

  /** The bits of a message in the order of transmission. */
  function BitsOf(data: seq<octet>): (t: seq<bool>)
    ensures |t| == 8 * |data|
  {
    if data == [] then [] else TopBits(High(data[0]), 8) + BitsOf(data[1..])
  }

  /** The CRC of a message: the register after all its bits, starting from 0. */
  function Crc16(data: seq<octet>): bv16 {
    Feed(0, BitsOf(data))
  }

  // ----- The register is linear, and shifting it loses nothing -----

  lemma TopXor(a: bv16, b: bv16)
    ensures TopBit(Xor(a, b)) == (TopBit(a) != TopBit(b))
  {
  }

  lemma UpXor(a: bv16, b: bv16)
    ensures Up(Xor(a, b)) == Xor(Up(a), Up(b))
  {
  }

  lemma Regroup(a: bv16, b: bv16, g: bv16)
    ensures Xor(Xor(a, g), b) == Xor(Xor(a, b), g)
  {
  }

  lemma RegroupRight(a: bv16, b: bv16, g: bv16)
    ensures Xor(a, Xor(b, g)) == Xor(Xor(a, b), g)
  {
  }

  lemma XorTwice(r: bv16, p: bv16)
    ensures Xor(Xor(r, p), p) == r
  {
  }

  lemma XorCommutes(a: bv16, b: bv16)
    ensures Xor(a, b) == Xor(b, a)
  {
  }

  lemma RegroupBoth(a: bv16, b: bv16, g: bv16)
    ensures Xor(Xor(a, g), Xor(b, g)) == Xor(a, b)
  {
    hide *;
    RegroupRight(Xor(a, g), b, g);
    Regroup(a, b, g);
    XorTwice(Xor(a, b), g);
  }

  lemma ShiftIs(r: bv16)
    ensures Shift(r) == if TopBit(r) then Xor(Up(r), 0x1021) else Up(r)
  {
  }

  lemma ShiftXor(a: bv16, b: bv16)
    ensures Shift(Xor(a, b)) == Xor(Shift(a), Shift(b))
  {
    hide *;
    TopXor(a, b);
    UpXor(a, b);
    ShiftIs(a);
    ShiftIs(b);
    ShiftIs(Xor(a, b));
    Regroup(Up(a), Up(b), 0x1021);
    RegroupRight(Up(a), Up(b), 0x1021);
    RegroupBoth(Up(a), Up(b), 0x1021);
  }

  lemma ShiftZero(r: bv16)
    ensures Shift(r) == 0 <==> r == 0
  {
  }

  lemma {:induction false} ShiftsXor(a: bv16, b: bv16, n: nat)
    ensures Shifts(Xor(a, b), n) == Xor(Shifts(a, n), Shifts(b, n))
    decreases n
  {
    hide Shift, Xor;
    if n > 0 {
      ShiftXor(a, b);
      ShiftsXor(Shift(a), Shift(b), n - 1);
    }
  }

  lemma {:induction false} ShiftsZero(r: bv16, n: nat)
    ensures Shifts(r, n) == 0 <==> r == 0
    decreases n
  {
    hide Shift;
    if n > 0 {
      ShiftZero(r);
      ShiftsZero(Shift(r), n - 1);
    }
  }

  lemma {:induction false} FeedConcat(r: bv16, s: seq<bool>, t: seq<bool>)
    ensures Feed(r, s + t) == Feed(Feed(r, s), t)
    decreases |s|
  {
    hide FeedBit;
    if s == [] {
      assert s + t == t;
    } else {
      assert (s + t)[1..] == s[1..] + t;
      FeedConcat(FeedBit(r, s[0]), s[1..], t);
    }
  }

  // ----- Bits that enter together -----

  /** A word whose top bit goes out: that bit, and the rest one place up. */
  lemma ShiftSplit(r: bv16, p: bv16)
    ensures Shift(Xor(r, p)) == Xor(FeedBit(r, TopBit(p)), Up(p))
  {
    hide *;
    ShiftIs(Xor(r, p));
    TopXor(r, p);
    UpXor(r, p);
    FeedBitIs(r, TopBit(p));
    Regroup(Up(r), Up(p), 0x1021);
  }

  /** A turn subtracts the generator when the outgoing bit and the incoming one differ. */
  lemma FeedBitIs(r: bv16, b: bool)
    ensures FeedBit(r, b) == if TopBit(r) != b then Xor(Up(r), 0x1021) else Up(r)
  {
    hide Shift, TopBit, Up, Xor, Incoming;
    var p := Incoming(b);
    ShiftIs(Xor(r, p));
    TopXor(r, p);
    UpXor(r, p);
    IncomingIsTop(b);
    XorNothing(Up(r));
  }

  lemma IncomingIsTop(b: bool)
    ensures TopBit(Incoming(b)) == b
    ensures Up(Incoming(b)) == 0
  {
  }

  lemma XorNothing(r: bv16)
    ensures Xor(r, 0) == r
  {
  }

  lemma ZeroXor(r: bv16)
    ensures Xor(0, r) == r
  {
  }

  /** Feeding n bits one by one is adding the word that begins with them and shifting n times. */
  lemma FeedWord(r: bv16, p: bv16, n: nat)
    ensures Feed(r, TopBits(p, n)) == Xor(Shifts(Xor(r, p), n), Left(p, n))
  {
    hide Shifts, Feed, TopBits, Left;
    WordFeeds(r, p, n);
  }

  ghost predicate FeedsAsWord(r: bv16, p: bv16, n: nat) {
    Feed(r, TopBits(p, n)) == Xor(Shifts(Xor(r, p), n), Left(p, n))
  }

  lemma {:induction false} WordFeeds(r: bv16, p: bv16, n: nat)
    ensures FeedsAsWord(r, p, n)
    decreases n
  {
    hide *;
    if n == 0 {
      WordFeedsNone(r, p);
    } else {
      WordFeeds(FeedBit(r, TopBit(p)), Up(p), n - 1);
      WordFeedsMore(r, p, n);
    }
  }

  lemma WordFeedsNone(r: bv16, p: bv16)
    ensures FeedsAsWord(r, p, 0)
  {
    XorTwice(r, p);
  }

  lemma WordFeedsMore(r: bv16, p: bv16, n: nat)
    requires n > 0 && FeedsAsWord(FeedBit(r, TopBit(p)), Up(p), n - 1)
    ensures FeedsAsWord(r, p, n)
  {
    hide Shift, FeedBit, TopBit, Up, Feed, TopBits;
    FeedTopBits(r, p, n);
    ShiftSplit(r, p);
    assert Shifts(Xor(r, p), n) == Shifts(Shift(Xor(r, p)), n - 1);
  }

  lemma FeedTopBits(r: bv16, p: bv16, n: nat)
    requires n > 0
    ensures Feed(r, TopBits(p, n)) == Feed(FeedBit(r, TopBit(p)), TopBits(Up(p), n - 1))
  {
    hide Shift, FeedBit;
    assert TopBits(p, n)[1..] == TopBits(Up(p), n - 1);
  }

  lemma LeftByte(b: octet)
    ensures Left(High(b), 8) == 0
  {
  }

  lemma LeftWord(p: bv16)
    ensures Left(p, 16) == 0
  {
    assert Left(p, 16) == Left(p << 8, 8);
  }

  /** The source's way with a byte: add it to the top of the register, then shift eight times. */
  lemma FeedByte(r: bv16, b: octet)
    ensures Feed(r, TopBits(High(b), 8)) == Shifts(Xor(r, High(b)), 8)
  {
    hide Shift, Shifts, Feed, TopBits, Left, High;
    FeedWord(r, High(b), 8);
    LeftByte(b);
  }

  // ----- What the check accepts -----

  lemma {:induction false} BitsOfConcat(a: seq<octet>, b: seq<octet>)
    ensures BitsOf(a + b) == BitsOf(a) + BitsOf(b)
  {
    hide TopBits, High;
    if a == [] {
      assert a + b == b;
    } else {
      assert (a + b)[1..] == a[1..] + b;
      BitsOfConcat(a[1..], b);
    }
  }

  lemma BitsOfTwo(high: octet, low: octet)
    ensures BitsOf([high, low]) == TopBits(High(high), 8) + TopBits(High(low), 8)
  {
    hide TopBits, High;
    assert [high, low][1..] == [low];
    assert BitsOf([low]) == TopBits(High(low), 8);
  }

  /** A block and its CRC, as received: the check of the source. */
  predicate Accepts(frame: seq<octet>)
    requires |frame| >= 2
  {
    Crc16(frame[..|frame| - 2]) == Word(frame[|frame| - 2], frame[|frame| - 1])
  }

  lemma LowShifts(low: octet)
    ensures Shifts(low as bv16, 8) == High(low)
  {
  }

  lemma {:induction false} ShiftsSame(a: bv16, b: bv16, n: nat)
    ensures Shifts(a, n) == Shifts(b, n) <==> a == b
  {
    hide Shifts, Xor;
    ShiftsXor(a, b, n);
    ShiftsZero(Xor(a, b), n);
    XorZero(a, b);
    XorZero(Shifts(a, n), Shifts(b, n));
  }

  lemma XorZero(a: bv16, b: bv16)
    ensures Xor(a, b) == 0 <==> a == b
  {
    hide *;
    XorAcross(a, b, 0);
    XorNothing(b);
  }

  lemma WordXor(r: bv16, high: octet, low: octet)
    ensures Xor(r, High(high)) == (low as bv16) <==> r == Word(high, low)
  {
    hide Xor, Word, High;
    WordIsXor(high, low);
    XorAcross(r, High(high), low as bv16);
  }

  lemma WordIsXor(high: octet, low: octet)
    ensures Word(high, low) == Xor(High(high), low as bv16)
  {
  }

  lemma XorAcross(r: bv16, h: bv16, l: bv16)
    ensures Xor(r, h) == l <==> r == Xor(h, l)
  {
    hide *;
    XorTwice(r, h);
    XorCommutes(h, l);
    XorTwice(l, h);
  }

  /** Two more bytes bring the register to 0 exactly when they spell it. */
  lemma TwoBytesCancel(r: bv16, high: octet, low: octet)
    ensures Feed(r, BitsOf([high, low])) == 0 <==> r == Word(high, low)
  {
    hide Shifts, Feed, TopBits, BitsOf, High, Word;
    BitsOfTwo(high, low);
    FeedConcat(r, TopBits(High(high), 8), TopBits(High(low), 8));
    FeedByte(r, high);
    var s := Shifts(Xor(r, High(high)), 8);
    FeedByte(s, low);
    ShiftsZero(Xor(s, High(low)), 8);
    XorZero(s, High(low));
    LowShifts(low);
    ShiftsSame(Xor(r, High(high)), low as bv16, 8);
    WordXor(r, high, low);
  }

  /** The check holds exactly when data and CRC together leave nothing in the register. */
  lemma AcceptedLeavesZero(frame: seq<octet>)
    requires |frame| >= 2
    ensures Accepts(frame) <==> Feed(0, BitsOf(frame)) == 0
  {
    hide Feed, BitsOf, Word;
    var data, high, low := frame[..|frame| - 2], frame[|frame| - 2], frame[|frame| - 1];
    assert frame == data + [high, low];
    BitsOfConcat(data, [high, low]);
    FeedConcat(0, BitsOf(data), BitsOf([high, low]));
    TwoBytesCancel(Crc16(data), high, low);
  }

  // ----- Polynomials over GF(2), highest coefficient first -----

  function Zeros(n: nat): (z: seq<bool>)
    ensures |z| == n
  {
    seq(n, i => false)
  }

  function Plus(a: seq<bool>, b: seq<bool>): (c: seq<bool>)
    requires |a| == |b|
    ensures |c| == |a|
  {
    seq(|a|, i requires 0 <= i < |a| => a[i] != b[i])
  }

  /** x^16 + x^12 + x^5 + 1 */
  function Generator(): (g: seq<bool>)
    ensures |g| == 17
  {
    [true, false, false, false, true, false, false, false, false, false, false, true, false, false, false, false, true]
  }

  /** The product, coefficient by coefficient of the left factor. */
  function Times(q: seq<bool>, g: seq<bool>): (p: seq<bool>)
    requires |g| > 0
    ensures |p| == |q| + |g| - 1
    decreases |q|
  {
    if q == [] then Zeros(|g| - 1)
    else Plus((if q[0] then g else Zeros(|g|)) + Zeros(|q| - 1), [false] + Times(q[1..], g))
  }

  lemma {:induction false} TopBitsXor(a: bv16, b: bv16, n: nat)
    ensures TopBits(Xor(a, b), n) == Plus(TopBits(a, n), TopBits(b, n))
    decreases n
  {
    hide TopBit, Up, Xor;
    if n > 0 {
      TopXor(a, b);
      UpXor(a, b);
      TopBitsXor(Up(a), Up(b), n - 1);
    }
  }

  lemma {:induction false} TopBitsSnoc(p: bv16, n: nat)
    ensures TopBits(p, n + 1) == TopBits(p, n) + [TopBit(Left(p, n))]
    decreases n
  {
    hide TopBit, Up;
    if n > 0 {
      TopBitsSnoc(Up(p), n - 1);
    }
  }

  lemma {:induction false} TopBitsOfZero(n: nat)
    ensures TopBits(0, n) == Zeros(n)
    decreases n
  {
    if n > 0 {
      TopBitsOfZero(n - 1);
      assert Up(0) == 0;
    }
  }

  lemma {:induction false} FeedXor(a: bv16, b: bv16, s: seq<bool>, t: seq<bool>)
    requires |s| == |t|
    ensures Feed(Xor(a, b), Plus(s, t)) == Xor(Feed(a, s), Feed(b, t))
    decreases |s|
  {
    hide FeedBit, Xor;
    if s != [] {
      FeedBitXor(a, b, s[0], t[0]);
      assert Plus(s, t)[1..] == Plus(s[1..], t[1..]);
      FeedXor(FeedBit(a, s[0]), FeedBit(b, t[0]), s[1..], t[1..]);
    }
  }

  lemma FeedBitXor(a: bv16, b: bv16, s: bool, t: bool)
    ensures FeedBit(Xor(a, b), s != t) == Xor(FeedBit(a, s), FeedBit(b, t))
  {
    hide Shift, Xor, Incoming;
    IncomingXor(s, t);
    Shuffle(a, b, Incoming(s), Incoming(t));
    ShiftXor(Xor(a, Incoming(s)), Xor(b, Incoming(t)));
  }

  lemma IncomingXor(s: bool, t: bool)
    ensures Incoming(s != t) == Xor(Incoming(s), Incoming(t))
  {
  }

  lemma Shuffle(a: bv16, b: bv16, p: bv16, q: bv16)
    ensures Xor(Xor(a, b), Xor(p, q)) == Xor(Xor(a, p), Xor(b, q))
  {
    hide *;
    RegroupRight(Xor(a, b), p, q);
    Regroup(a, b, p);
    RegroupRight(Xor(a, p), b, q);
  }

  // ----- The register is the remainder of a long division -----

  /** The quotient's coefficients: whether each turn subtracts the generator. */
  function Quotient(r: bv16, bits: seq<bool>): (q: seq<bool>)
    ensures |q| == |bits|
    decreases |bits|
  {
    if bits == [] then [] else [TopBit(r) != bits[0]] + Quotient(FeedBit(r, bits[0]), bits[1..])
  }

  lemma {:induction false} TopBitsConcat(p: bv16, m: nat, n: nat)
    ensures TopBits(p, m + n) == TopBits(p, m) + TopBits(Left(p, m), n)
    decreases m
  {
    hide TopBit, Up;
    if m == 0 {
      assert TopBits(p, 0) == [];
    } else {
      TopBitsConcat(Up(p), m - 1, n);
    }
  }

  lemma GeneratorWord()
    ensures TopBits(0x1021, 16) == Generator()[1..]
  {
    TopBitsConcat(0x1021, 8, 8);
    assert TopBits(0x1021, 8) == [false, false, false, true, false, false, false, false];
    assert Left(0x1021, 8) == 0x2100;
    assert TopBits(0x2100, 8) == [false, false, true, false, false, false, false, true];
  }

  lemma UpTopBits(r: bv16)
    ensures TopBits(Up(r), 16) == TopBits(r, 16)[1..] + [false]
  {
    hide TopBit, Up, Left, TopBits;
    LeftWord(r);
    TopBitsSnoc(r, 16);
    assert !TopBit(0) by { ZeroHasNoTop(); }
    TopBitsHead(r, 17);
    assert TopBits(Up(r), 16) == (TopBits(r, 16) + [false])[1..];
  }

  lemma TopBitsHead(p: bv16, n: nat)
    requires n > 0
    ensures TopBits(p, n) == [TopBit(p)] + TopBits(Up(p), n - 1)
  {
  }

  lemma ZeroHasNoTop()
    ensures !TopBit(0)
  {
  }

  /** Coefficient j of the register after one more bit. */
  lemma FeedBitAt(r: bv16, b: bool, j: nat)
    requires j < 16
    ensures TopBits(FeedBit(r, b), 16)[j]
         == ((j < 15 && TopBits(r, 16)[j + 1]) != (TopBit(r) != b && Generator()[j + 1]))
  {
    hide TopBit, Up, TopBits, FeedBit, Xor;
    FeedBitIs(r, b);
    UpTopBits(r);
    TopBitsXor(Up(r), 0x1021, 16);
    GeneratorWord();
  }

  /** Starting from r, the bits leave a remainder: r x^n + bits x^16 = quotient G + register. */
  ghost predicate Divides(r: bv16, bits: seq<bool>) {
    Plus(TopBits(r, 16) + Zeros(|bits|), bits + Zeros(16))
    == Plus(Times(Quotient(r, bits), Generator()), Zeros(|bits|) + TopBits(Feed(r, bits), 16))
  }

  lemma {:induction false} LongDivision(r: bv16, bits: seq<bool>)
    ensures Divides(r, bits)
    decreases |bits|
  {
    hide *;
    if bits == [] {
      NoBitsDivide(r);
    } else {
      LongDivision(FeedBit(r, bits[0]), bits[1..]);
      OneTurnDivides(r, bits);
    }
  }

  lemma NoBitsDivide(r: bv16)
    ensures Divides(r, [])
  {
    hide TopBits;
  }

  lemma OneTurnDivides(r: bv16, bits: seq<bool>)
    requires bits != [] && Divides(FeedBit(r, bits[0]), bits[1..])
    ensures Divides(r, bits)
  {
    hide TopBit, Up, TopBits, FeedBit, Plus, Times, Generator, Zeros;
    var r', t := FeedBit(r, bits[0]), TopBit(r) != bits[0];
    var w, w', q, rest := TopBits(r, 16), TopBits(r', 16), Quotient(r', bits[1..]), TopBits(Feed(r, bits), 16);
    TopBitsHead(r, 16);
    forall j | 0 <= j < 16
      ensures CancelsAt(w, w', t, j)
    {
      FeedBitAt(r, bits[0], j);
    }
    assert Plus(w' + Zeros(|q|), bits[1..] + Zeros(16)) == Plus(Times(q, Generator()), Zeros(|q|) + rest);
    OneTurn(w, w', t, bits, q, rest);
  }

  /** The new register's coefficient j: the old one's next, less the generator's if that was subtracted. */
  ghost predicate CancelsAt(w: seq<bool>, w': seq<bool>, t: bool, j: nat)
    requires |w| == |w'| == 16 && j < 16
  {
    w'[j] == ((j < 15 && w[j + 1]) != (t && Generator()[j + 1]))
  }

  lemma SumAt(a: seq<bool>, n: nat, b: seq<bool>, m: nat, k: nat)
    requires |a| + n == |b| + m && k < |a| + n
    ensures Plus(a + Zeros(n), b + Zeros(m))[k] == ((k < |a| && a[k]) != (k < |b| && b[k]))
  {
  }

  lemma SumBehindAt(a: seq<bool>, n: nat, b: seq<bool>, k: nat)
    requires |a| == n + |b| && k < |a|
    ensures Plus(a, Zeros(n) + b)[k] == (a[k] != (k >= n && b[k - n]))
  {
  }

  lemma TimesAt(t: bool, q: seq<bool>, k: nat)
    requires k < |q| + 17
    ensures Times([t] + q, Generator())[k]
         == ((k <= 16 && t && Generator()[k]) != (k > 0 && Times(q, Generator())[k - 1]))
  {
    hide Generator;
    assert ([t] + q)[1..] == q;
  }

  /** What one line of the long division starts from, on coefficients alone. */
  ghost predicate Turns(w: seq<bool>, w': seq<bool>, t: bool, bits: seq<bool>, q: seq<bool>, rest: seq<bool>) {
    && |w| == |w'| == |rest| == 16
    && |bits| == |q| + 1
    && t == (w[0] != bits[0])
    && (forall j :: 0 <= j < 16 ==> CancelsAt(w, w', t, j))
    && Plus(w' + Zeros(|q|), bits[1..] + Zeros(16)) == Plus(Times(q, Generator()), Zeros(|q|) + rest)
  }

  lemma OneTurn(w: seq<bool>, w': seq<bool>, t: bool, bits: seq<bool>, q: seq<bool>, rest: seq<bool>)
    requires Turns(w, w', t, bits, q, rest)
    ensures Plus(w + Zeros(|bits|), bits + Zeros(16))
         == Plus(Times([t] + q, Generator()), Zeros(|bits|) + rest)
  {
    hide Generator, Plus, Times, Zeros, CancelsAt;
    forall k | 0 <= k < |bits| + 16
      ensures Plus(w + Zeros(|bits|), bits + Zeros(16))[k]
           == Plus(Times([t] + q, Generator()), Zeros(|bits|) + rest)[k]
    {
      OneTurnAt(w, w', t, bits, q, rest, k);
    }
  }

  lemma OneTurnAt(w: seq<bool>, w': seq<bool>, t: bool, bits: seq<bool>, q: seq<bool>, rest: seq<bool>, k: nat)
    requires Turns(w, w', t, bits, q, rest) && k < |bits| + 16
    ensures Plus(w + Zeros(|bits|), bits + Zeros(16))[k]
         == Plus(Times([t] + q, Generator()), Zeros(|bits|) + rest)[k]
  {
    hide Generator, Plus, Times, Zeros;
    var n := |bits|;
    SumAt(w, n, bits, 16, k);
    TimesAt(t, q, k);
    SumBehindAt(Times([t] + q, Generator()), n, rest, k);
    if k > 0 {
      SumAt(w', n - 1, bits[1..], 16, k - 1);
      SumBehindAt(Times(q, Generator()), n - 1, rest, k - 1);
      if k <= 16 {
        assert CancelsAt(w, w', t, k - 1);
      }
    } else {
      GeneratorLeads();
    }
  }

  lemma GeneratorLeads()
    ensures Generator()[0]
  {
  }

  /** Division has one quotient and one remainder. */
  lemma {:induction false} DivisionIsUnique(q: seq<bool>, c: seq<bool>, p: seq<bool>, d: seq<bool>)
    requires |q| == |p| && |c| == |d| == 16
    requires Plus(Times(q, Generator()), Zeros(|q|) + c) == Plus(Times(p, Generator()), Zeros(|p|) + d)
    ensures q == p && c == d
    decreases |q|
  {
    hide Generator, Plus, Times, Zeros;
    if q == [] {
      forall k | 0 <= k < 16
        ensures c[k] == d[k]
      {
        SumBehindAt(Times(q, Generator()), 0, c, k);
        SumBehindAt(Times(p, Generator()), 0, d, k);
      }
    } else {
      LeadingAgree(q, c, p, d);
      var left := Plus(Times(q[1..], Generator()), Zeros(|q| - 1) + c);
      var right := Plus(Times(p[1..], Generator()), Zeros(|p| - 1) + d);
      forall k | 0 <= k < |q| + 15
        ensures left[k] == right[k]
      {
        LineAt(q, c, k);
        LineAt(p, d, k);
      }
      DivisionIsUnique(q[1..], c, p[1..], d);
      assert q == [q[0]] + q[1..] && p == [p[0]] + p[1..];
    }
  }

  lemma LineAt(q: seq<bool>, c: seq<bool>, k: nat)
    requires q != [] && |c| == 16 && k < |q| + 15
    ensures Plus(Times(q, Generator()), Zeros(|q|) + c)[k + 1]
         == ((k < 16 && q[0] && Generator()[k + 1]) != Plus(Times(q[1..], Generator()), Zeros(|q| - 1) + c)[k])
  {
    hide Generator, Plus, Times, Zeros;
    assert q == [q[0]] + q[1..];
    var t, n, later := q[0], |q| - 1, q[1..];
    var times, times' := Times(q, Generator()), Times(later, Generator());
    TimesAt(t, later, k + 1);
    SumMoved(times, times', n, c, k, k < 16 && t && Generator()[k + 1]);
  }

  /** Two sums with the same lower part, one place apart. */
  lemma SumMoved(a: seq<bool>, b: seq<bool>, n: nat, c: seq<bool>, k: nat, g: bool)
    requires |a| == |b| + 1 == n + 1 + |c| && k < |b| && a[k + 1] == (g != b[k])
    ensures Plus(a, Zeros(n + 1) + c)[k + 1] == (g != Plus(b, Zeros(n) + c)[k])
  {
    hide Plus, Zeros;
    SumBehindAt(a, n + 1, c, k + 1);
    SumBehindAt(b, n, c, k);
    assert k >= n ==> c[k + 1 - (n + 1)] == c[k - n];
  }

  lemma LeadingAgree(q: seq<bool>, c: seq<bool>, p: seq<bool>, d: seq<bool>)
    requires |q| == |p| > 0 && |c| == |d| == 16
    requires Plus(Times(q, Generator()), Zeros(|q|) + c) == Plus(Times(p, Generator()), Zeros(|p|) + d)
    ensures q[0] == p[0]
  {
    hide Generator, Plus, Times, Zeros;
    SumBehindAt(Times(q, Generator()), |q|, c, 0);
    SumBehindAt(Times(p, Generator()), |p|, d, 0);
    TimesAt(q[0], q[1..], 0);
    TimesAt(p[0], p[1..], 0);
    assert q == [q[0]] + q[1..] && p == [p[0]] + p[1..];
    GeneratorLeads();
  }

  /** A word is known by its bits. */
  lemma TopBitsDetermine(c: bv16, d: bv16)
    requires TopBits(c, 16) == TopBits(d, 16)
    ensures c == d
  {
    hide Shifts, Feed, TopBits, Left;
    WordAlone(c);
    WordAlone(d);
    ShiftsSame(c, d, 16);
  }

  lemma WordAlone(c: bv16)
    ensures Feed(0, TopBits(c, 16)) == Shifts(c, 16)
  {
    hide Shifts, Feed, TopBits, Left;
    FeedWord(0, c, 16);
    LeftWord(c);
    ZeroXor(c);
  }

  /** c(x) is what m(x) x^16 leaves when divided by G(x), whatever the quotient. */
  ghost predicate IsRemainder(c: bv16, m: seq<bool>) {
    exists q: seq<bool> :: Leaves(q, c, m)
  }

  ghost predicate Leaves(q: seq<bool>, c: bv16, m: seq<bool>) {
    && |q| == |m|
    && m + Zeros(16) == Plus(Times(q, Generator()), Zeros(|m|) + TopBits(c, 16))
  }

  /** The CRC of a message is the one remainder of its polynomial times x^16 modulo x^16 + x^12 + x^5 + 1. */
  lemma CrcIsTheRemainder(data: seq<octet>, c: bv16)
    ensures c == Crc16(data) <==> IsRemainder(c, BitsOf(data))
  {
    hide Plus, Times, Generator, Zeros, TopBits, Feed, BitsOf;
    var m := BitsOf(data);
    CrcLeaves(data);
    if q: seq<bool> :| Leaves(q, c, m) {
      DivisionIsUnique(q, TopBits(c, 16), Quotient(0, m), TopBits(Crc16(data), 16));
      TopBitsDetermine(c, Crc16(data));
    }
  }

  lemma CrcLeaves(data: seq<octet>)
    ensures Leaves(Quotient(0, BitsOf(data)), Crc16(data), BitsOf(data))
  {
    hide TopBits, Feed, BitsOf, Times, Generator, Quotient;
    var m := BitsOf(data);
    LongDivision(0, m);
    TopBitsOfZero(16);
    assert Plus(TopBits(0, 16) + Zeros(|m|), m + Zeros(16)) == m + Zeros(16);
  }

  // ----- Errors the check detects -----

  lemma {:induction false} FeedZeros(r: bv16, n: nat)
    ensures Feed(r, Zeros(n)) == Shifts(r, n)
    decreases n
  {
    hide Shift;
    if n > 0 {
      assert Zeros(n)[1..] == Zeros(n - 1);
      assert FeedBit(r, false) == Shift(r) by { NoBit(r); }
      FeedZeros(Shift(r), n - 1);
    }
  }

  lemma NoBit(r: bv16)
    ensures FeedBit(r, false) == Shift(r)
  {
  }

  lemma {:induction false} LeftOfZero(n: nat)
    ensures Left(0, n) == 0
    decreases n
  {
    if n > 0 {
      assert Up(0) == 0;
      LeftOfZero(n - 1);
    }
  }

  lemma {:induction false} LeftLeft(p: bv16, m: nat, n: nat)
    ensures Left(p, m + n) == Left(Left(p, m), n)
    decreases m
  {
    hide Up;
    if m > 0 {
      LeftLeft(Up(p), m - 1, n);
    }
  }

  lemma LeftFifteen(p: bv16)
    ensures Left(p, 15) == p << 15
  {
    assert Left(p, 15) == Left(p << 8, 7);
  }

  /** A word whose bits are all gone before its last one had none there. */
  lemma GoneEarly(p: bv16, k: nat)
    requires k <= 15 && Left(p, k) == 0
    ensures p & 1 == 0
  {
    hide Left;
    LeftLeft(p, k, 15 - k);
    LeftOfZero(15 - k);
    LeftFifteen(p);
    assert p << 15 == 0 ==> p & 1 == 0;
  }

  /** A turn that leaves the lowest bit clear subtracted nothing. */
  lemma NothingSubtracted(r: bv16, b: bool)
    requires FeedBit(r, b) & 1 == 0
    ensures TopBit(r) == b && FeedBit(r, b) == Up(r)
  {
    hide *;
    FeedBitIs(r, b);
    SubtractingIsSeen(r);
  }

  lemma SubtractingIsSeen(r: bv16)
    ensures Xor(Up(r), 0x1021) & 1 != 0
  {
  }

  /** At most 16 bits cancel a register only by being its own. */
  lemma {:induction false} CancelledByItself(r: bv16, w: seq<bool>)
    requires |w| <= 16 && Feed(r, w) == 0
    ensures TopBits(r, |w|) == w && Left(r, |w|) == 0
    decreases |w|
  {
    hide FeedBit, TopBit, Up;
    if w != [] {
      var s := FeedBit(r, w[0]);
      CancelledByItself(s, w[1..]);
      GoneEarly(s, |w| - 1);
      NothingSubtracted(r, w[0]);
    }
  }

  /** Flipping bits only inside a window of 16 leaves something in the register. */
  lemma BurstLeavesSomething(i: nat, w: seq<bool>, m: nat)
    requires |w| == 16 && Feed(0, Zeros(i) + w + Zeros(m)) == 0
    ensures w == Zeros(16)
  {
    hide Feed, TopBits, Left, Zeros, Shifts;
    FeedConcat(0, Zeros(i) + w, Zeros(m));
    FeedConcat(0, Zeros(i), w);
    FeedZeros(0, i);
    ShiftsZero(0, i);
    FeedZeros(Feed(0, w), m);
    ShiftsZero(Feed(0, w), m);
    CancelledByItself(0, w);
    TopBitsOfZero(16);
  }

  /** Outside the window the two frames carry the same bits. */
  ghost predicate AgreeOutside(s: seq<bool>, t: seq<bool>, i: nat) {
    && |s| == |t| && i + 16 <= |s|
    && (forall k | 0 <= k < |s| && !(i <= k < i + 16) :: s[k] == t[k])
  }

  /** No two different frames that agree outside 16 adjacent bits both pass the check. */
  lemma BurstsAreDetected(x: seq<octet>, y: seq<octet>, i: nat)
    requires |x| >= 2 && |x| == |y| && x != y
    requires AgreeOutside(BitsOf(x), BitsOf(y), i)
    ensures !(Accepts(x) && Accepts(y))
  {
    hide Feed, BitsOf, Accepts, Xor;
    if Accepts(x) && Accepts(y) {
      var s, t := BitsOf(x), BitsOf(y);
      var w := Plus(s[i..i + 16], t[i..i + 16]);
      DifferenceIsWindow(s, t, i);
      AcceptedLeavesZero(x);
      AcceptedLeavesZero(y);
      FeedXor(0, 0, s, t);
      assert Xor(0, 0) == 0 by { XorZero(0, 0); }
      BurstLeavesSomething(i, w, |s| - i - 16);
      forall k | 0 <= k < |s|
        ensures s[k] == t[k]
      {
        if i <= k < i + 16 {
          assert !w[k - i];
        }
      }
      BitsDetermine(x, y);
    }
  }

  lemma DifferenceIsWindow(s: seq<bool>, t: seq<bool>, i: nat)
    requires AgreeOutside(s, t, i)
    ensures Plus(s, t) == Zeros(i) + Plus(s[i..i + 16], t[i..i + 16]) + Zeros(|s| - i - 16)
  {
  }

  lemma {:induction false} BitsDetermine(x: seq<octet>, y: seq<octet>)
    requires |x| == |y| && BitsOf(x) == BitsOf(y)
    ensures x == y
  {
    hide TopBits, High;
    if x != [] {
      assert TopBits(High(x[0]), 8) == BitsOf(x)[..8];
      assert TopBits(High(y[0]), 8) == BitsOf(y)[..8];
      assert BitsOf(x[1..]) == BitsOf(x)[8..];
      assert BitsOf(y[1..]) == BitsOf(y)[8..];
      BitsDetermine(x[1..], y[1..]);
      ByteBitsDetermine(x[0], y[0]);
      assert x == [x[0]] + x[1..] && y == [y[0]] + y[1..];
    }
  }

  lemma ByteBitsDetermine(a: octet, b: octet)
    requires TopBits(High(a), 8) == TopBits(High(b), 8)
    ensures a == b
  {
    hide TopBits, Feed, Shifts, High;
    FeedByte(0, a);
    FeedByte(0, b);
    ZeroXor(High(a));
    ZeroXor(High(b));
    ShiftsSame(High(a), High(b), 8);
    HighDetermines(a, b);
  }

  lemma HighDetermines(a: octet, b: octet)
    ensures High(a) == High(b) ==> a == b
  {
  }

  /** Whether a number of ones is odd. */
  function Odd(bits: seq<bool>): bool {
    if bits == [] then false else bits[0] != Odd(bits[1..])
  }

  lemma {:induction false} OddPlus(s: seq<bool>, t: seq<bool>)
    requires |s| == |t|
    ensures Odd(Plus(s, t)) == (Odd(s) != Odd(t))
  {
    if s != [] {
      assert Plus(s, t)[1..] == Plus(s[1..], t[1..]);
      OddPlus(s[1..], t[1..]);
    }
  }

  lemma {:induction false} OddConcat(s: seq<bool>, t: seq<bool>)
    ensures Odd(s + t) == (Odd(s) != Odd(t))
  {
    if s == [] {
      assert s + t == t;
    } else {
      assert (s + t)[1..] == s[1..] + t;
      OddConcat(s[1..], t);
    }
  }

  /** The generator has an even number of ones; without its first, an odd number. */
  lemma GeneratorIsEven()
    ensures Odd(Generator()[1..])
  {
    hide Odd;
    var g := Generator()[1..];
    assert g == g[..8] + g[8..];
    assert g[..8] == [false, false, false, true] + [false, false, false, false];
    assert g[8..] == [false, false, true, false] + [false, false, false, true];
    OddHalves(g[..8], g[8..]);
    OddFour(false, false, false, true);
    OddFour(false, false, false, false);
    OddFour(false, false, true, false);
  }

  lemma OddHalves(s: seq<bool>, t: seq<bool>)
    requires |s| == |t| == 8
    ensures Odd(s + t) == ((Odd(s[..4]) != Odd(s[4..])) != (Odd(t[..4]) != Odd(t[4..])))
  {
    hide Odd;
    OddConcat(s, t);
    OddConcat(s[..4], s[4..]);
    OddConcat(t[..4], t[4..]);
    assert s == s[..4] + s[4..] && t == t[..4] + t[4..];
  }

  lemma OddFour(a: bool, b: bool, c: bool, d: bool)
    ensures Odd([a, b, c, d]) == ((a != b) != (c != d))
  {
    assert [a, b, c, d][1..] == [b, c, d];
    assert [b, c, d][1..] == [c, d];
    assert [c, d][1..] == [d];
    OddOne(d);
    assert Odd([c, d]) == (c != d);
    assert Odd([b, c, d]) == (b != Odd([c, d]));
  }

  lemma UpParity(r: bv16)
    ensures Odd(TopBits(Up(r), 16)) == (Odd(TopBits(r, 16)) != TopBit(r))
  {
    hide TopBits, Up, TopBit, Odd;
    UpTopBits(r);
    TopBitsHead(r, 16);
    var later := TopBits(r, 16)[1..];
    OddConcat(later, [false]);
    OddConcat([TopBit(r)], later);
    assert TopBits(r, 16) == [TopBit(r)] + later;
    OddOne(false);
    OddOne(TopBit(r));
  }

  lemma OddOne(b: bool)
    ensures Odd([b]) == b
  {
  }

  /** A turn changes the parity of the register by the bit that enters. */
  lemma FeedBitParity(r: bv16, b: bool)
    ensures Odd(TopBits(FeedBit(r, b), 16)) == (Odd(TopBits(r, 16)) != b)
  {
    hide TopBits, Up, TopBit, Odd, FeedBit, Xor, Generator, Plus;
    FeedBitIs(r, b);
    UpParity(r);
    TopBitsXor(Up(r), 0x1021, 16);
    OddPlus(TopBits(Up(r), 16), TopBits(0x1021, 16));
    GeneratorWord();
    GeneratorIsEven();
  }

  lemma {:induction false} FeedParity(r: bv16, bits: seq<bool>)
    ensures Odd(TopBits(Feed(r, bits), 16)) == (Odd(TopBits(r, 16)) != Odd(bits))
    decreases |bits|
  {
    hide FeedBit, TopBits;
    if bits != [] {
      FeedBitParity(r, bits[0]);
      FeedParity(FeedBit(r, bits[0]), bits[1..]);
    }
  }

  lemma {:induction false} OddZeros(n: nat)
    ensures !Odd(Zeros(n))
  {
    if n > 0 {
      assert Zeros(n)[1..] == Zeros(n - 1);
      OddZeros(n - 1);
    }
  }

  /** The check accepts only frames with an even number of ones, so it detects any odd number of flipped bits. */
  lemma OddErrorsAreDetected(x: seq<octet>, y: seq<octet>)
    requires |x| >= 2 && |x| == |y|
    ensures Accepts(x) ==> !Odd(BitsOf(x))
    ensures Accepts(x) && Accepts(y) ==> !Odd(Plus(BitsOf(x), BitsOf(y)))
  {
    hide Feed, BitsOf, Accepts, TopBits, Odd, Plus, Zeros;
    AcceptedLeavesZero(x);
    AcceptedLeavesZero(y);
    FeedParity(0, BitsOf(x));
    FeedParity(0, BitsOf(y));
    TopBitsOfZero(16);
    OddZeros(16);
    OddPlus(BitsOf(x), BitsOf(y));
  }

  // ----- The check -----

  /** Checks the CRC that follows `length` bytes of data behind the two header bytes of a block. */
  method DecodePacketCRC(ppkt: array<octet>, length: nat) returns (ok: bool)
    requires ppkt.Length >= length + 4
    ensures ok <==> Accepts(ppkt[2..length + 4])
  {
    hide Feed, Shifts, Shift, TopBits, High, Word, Xor, BitsOf;
    var crc16Calc: bv16 := 0;
    var k := 0;
    assert BitsOf(ppkt[2..2]) == [] by { NoBits(ppkt[2..2]); }
    assert Feed(0, []) == 0 by { NothingFed(0); }
    while k < length
      invariant k <= length && crc16Calc == Crc16(ppkt[2..2 + k])
    {
      var entry := crc16Calc;
      crc16Calc := Xor(crc16Calc, High(ppkt[2 + k]));
      var start := crc16Calc;
      var i := 0;
      NoShifts(crc16Calc);
      while i < 8
        invariant i <= 8 && Shifts(crc16Calc, 8 - i) == Shifts(start, 8)
      {
        ShiftsTurn(crc16Calc, 8 - i);
        var before := crc16Calc;
        if TopBit(crc16Calc) {
          crc16Calc := Up(crc16Calc);
          crc16Calc := Xor(crc16Calc, 0x1021);
        } else {
          crc16Calc := Up(crc16Calc);
        }
        assert crc16Calc == Shift(before) by { ShiftIs(before); }
        i := i + 1;
      }
      NoShifts(crc16Calc);
      CrcOfMore(ppkt[2..2 + k], ppkt[2 + k], entry);
      assert ppkt[2..2 + (k + 1)] == ppkt[2..2 + k] + [ppkt[2 + k]];
      k := k + 1;
    }
    var crc16Pkt := Word(ppkt[2 + length], ppkt[3 + length]);
    ok := crc16Calc == crc16Pkt;
    assert ppkt[2..length + 4][..length] == ppkt[2..2 + length];
  }

  lemma NoBits(data: seq<octet>)
    requires data == []
    ensures BitsOf(data) == []
  {
  }

  lemma NothingFed(r: bv16)
    ensures Feed(r, []) == r
  {
  }

  lemma NoShifts(r: bv16)
    ensures Shifts(r, 0) == r
  {
  }

  lemma ShiftsTurn(r: bv16, n: nat)
    requires n > 0
    ensures Shifts(r, n) == Shifts(Shift(r), n - 1)
  {
    hide Shift;
  }

  lemma CrcOfMore(data: seq<octet>, b: octet, r: bv16)
    requires r == Crc16(data)
    ensures Crc16(data + [b]) == Shifts(Xor(r, High(b)), 8)
  {
    hide Feed, Shifts, TopBits, High;
    BitsOfConcat(data, [b]);
    assert BitsOf([b]) == TopBits(High(b), 8) + BitsOf([]);
    assert TopBits(High(b), 8) + [] == TopBits(High(b), 8);
    FeedConcat(0, BitsOf(data), TopBits(High(b), 8));
    FeedByte(r, b);
  }
}
