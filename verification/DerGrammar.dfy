/**
 Which keys firmware/src/at_cmd_engine/at_cmds/at_cmd_pkcs.c accepts, said of their bytes, and what it
 takes from them: everything else is refused.
 */
module DerGrammar {
  import opened Bytes
  import opened Der

  // ----- Headers, read off the bytes (sections 8.1.2 and 8.1.3 of X.690) -----

  /** The number that bytes stand for, the most significant first. */
  function Value256(t: seq<byte>): nat {
    if t == [] then 0 else 256 * Value256(t[..|t| - 1]) + t[|t| - 1]
  }

  /** At `at` stands an element with this tag, and its contents are these; a length beyond 32 bits loses what is above. */
  ghost predicate HeaderAt(d: seq<byte>, at: nat, h: Header) {
    && at + 1 < |d| && h.tag == d[at]
    && if d[at + 1] < 128 then h.contents == at + 2 && h.length == d[at + 1]
       else
         && h.contents == at + 2 + (d[at + 1] - 128) <= |d|
         && h.length == Value256(d[at + 2..h.contents]) % 4294967296
  }

  lemma {:induction false} BigEndianIs(t: seq<byte>, acc: nat)
    requires acc < LENGTH_LIMIT
    ensures BigEndian(t, acc) == (acc * Weight256(|t|) + Value256(t)) % LENGTH_LIMIT
    decreases |t|
  {
    if t != [] {
      var next := (acc * 256 + t[0]) % LENGTH_LIMIT;
      BigEndianIs(t[1..], next);
      FirstByte(t);
      var w, v := Weight256(|t| - 1), Value256(t[1..]);
      SameRemainder(acc * 256 + t[0], w, v);
      assert (acc * 256 + t[0]) * w == acc * (256 * w) + t[0] * w by { Spread(acc, t[0], w); }
    }
  }

  function Weight256(n: nat): nat {
    if n == 0 then 1 else 256 * Weight256(n - 1)
  }

  lemma Spread(a: nat, b: nat, w: nat)
    ensures (a * 256 + b) * w == a * (256 * w) + b * w
  {
  }

  lemma SameRemainder(x: nat, w: nat, v: nat)
    ensures (x % LENGTH_LIMIT * w + v) % LENGTH_LIMIT == (x * w + v) % LENGTH_LIMIT
  {
    var q, r := x / LENGTH_LIMIT, x % LENGTH_LIMIT;
    assert x * w + v == (r * w + v) + q * w * LENGTH_LIMIT by { Quotients(q, r, w, v); }
    Turns(r * w + v, q * w);
  }

  lemma Quotients(q: nat, r: nat, w: nat, v: nat)
    ensures (q * LENGTH_LIMIT + r) * w + v == (r * w + v) + q * w * LENGTH_LIMIT
  {
  }

  lemma {:induction false} Turns(y: nat, k: nat)
    ensures (y + k * LENGTH_LIMIT) % LENGTH_LIMIT == y % LENGTH_LIMIT
  {
    if k > 0 {
      Turns(y, k - 1);
      assert y + k * LENGTH_LIMIT == (y + (k - 1) * LENGTH_LIMIT) + LENGTH_LIMIT;
    }
  }

  lemma {:induction false} FirstByte(t: seq<byte>)
    requires t != []
    ensures Value256(t) == t[0] * Weight256(|t| - 1) + Value256(t[1..])
    decreases |t|
  {
    var front := t[..|t| - 1];
    if front == [] {
      assert t[1..] == [] && Weight256(0) == 1;
    } else {
      FirstByte(front);
      assert front[1..] == t[1..][..|t[1..]| - 1];
      assert 256 * (t[0] * Weight256(|front| - 1)) == t[0] * (256 * Weight256(|front| - 1));
    }
  }

  /** The header loop finds exactly the header that stands there. */
  lemma HeaderIs(d: seq<byte>, at: nat, h: Header)
    requires HeaderFits(d, at)
    ensures HeaderAt(d, at, h) <==> h == DecodedTag(d, at).(total := h.total)
  {
    hide BigEndian, Value256;
    if d[at + 1] >= 128 {
      BigEndianIs(d[at + 2..at + 2 + (d[at + 1] - 128)], 0);
    }
  }

  /** Where the element ends. */
  function End(h: Header): nat { h.contents + h.length }

  lemma EndIs(d: seq<byte>, at: nat)
    requires HeaderFits(d, at) && Sized(d, at)
    ensures at + DecodedTag(d, at).total == End(DecodedTag(d, at))
  {
    TotalIsHeaderAndContents(d, at);
  }

  // ----- Envelopes -----

  /** The headers of an envelope around an RSA key: a sequence; in it an integer; a sequence whose first element, whatever its
      tag, holds the nine bytes of 1.2.840.113549.1.1.1; and an octet string. */
  ghost predicate EnvelopeAt(d: seq<byte>, at: nat, whole: Header, version: Header, algorithm: Header, oid: Header, key: Header) {
    && HeaderAt(d, at, whole) && whole.tag == 48
    && HeaderAt(d, whole.contents, version) && version.tag == 2
    && HeaderAt(d, End(version), algorithm) && algorithm.tag == 48
    && HeaderAt(d, algorithm.contents, oid) && oid.length == 9 && End(oid) <= |d|
    && d[oid.contents..End(oid)] == [42, 134, 72, 134, 247, 13, 1, 1, 1]
    && HeaderAt(d, End(algorithm), key) && key.tag == 4
  }

  ghost predicate HoldsKey(d: seq<byte>, at: nat, key: Header) {
    exists whole, version, algorithm, oid :: EnvelopeAt(d, at, whole, version, algorithm, oid, key)
  }

  /** The key of an envelope is found exactly where there is one; all else is refused. */
  lemma EnvelopeExactly(d: seq<byte>, at: nat, key: Header)
    requires Walkable(d, at)
    ensures Envelope(d, at).Some? && key == Envelope(d, at).value.(total := key.total) <==> HoldsKey(d, at, key)
  {
    hide DecodedTag, HeaderFits, HeaderAt, Sized;
    if HoldsKey(d, at, key) {
      var whole, version, algorithm, oid :| EnvelopeAt(d, at, whole, version, algorithm, oid, key);
      HeaderIs(d, at, whole);
      HeaderIs(d, whole.contents, version);
      EndIs(d, whole.contents);
      HeaderIs(d, End(version), algorithm);
      HeaderIs(d, algorithm.contents, oid);
      EndIs(d, End(version));
      HeaderIs(d, End(algorithm), key);
    }
    if Envelope(d, at).Some? {
      FoundEnvelope(d, at, key);
    }
  }

  lemma FoundEnvelope(d: seq<byte>, at: nat, key: Header)
    requires Walkable(d, at) && Envelope(d, at).Some?
    ensures key == Envelope(d, at).value.(total := key.total) ==> HoldsKey(d, at, key)
  {
    hide DecodedTag, HeaderFits, HeaderAt, Sized;
    var whole := DecodedTag(d, at);
    var version := DecodedTag(d, whole.contents);
    EndIs(d, whole.contents);
    var algorithm := DecodedTag(d, End(version));
    var oid := DecodedTag(d, algorithm.contents);
    EndIs(d, End(version));
    HeaderIs(d, at, whole);
    HeaderIs(d, whole.contents, version);
    HeaderIs(d, End(version), algorithm);
    HeaderIs(d, algorithm.contents, oid);
    HeaderIs(d, End(algorithm), key);
    if key == Envelope(d, at).value.(total := key.total) {
      assert EnvelopeAt(d, at, whole, version, algorithm, oid, key);
    }
  }

  // ----- The numbers of a key -----

  /** These elements, one behind the other, fill the space. */
  ghost predicate Row(d: seq<byte>, p: nat, space: nat, hs: seq<Header>)
    decreases |hs|
  {
    && hs != [] && HeaderAt(d, p, hs[0]) && p < End(hs[0]) <= p + space
    && if |hs| == 1 then End(hs[0]) == p + space else Row(d, End(hs[0]), p + space - End(hs[0]), hs[1..])
  }

  /** The bytes of an integer; one that is there for its sign only, a zero in front of a byte from 128 on, does not belong. */
  function NumberOf(d: seq<byte>, h: Header): Slice {
    if End(h) <= |d| && h.length >= 2 && d[h.contents] == 0 && d[h.contents + 1] > 127 then Slice(h.contents + 1, h.length - 1)
    else Slice(h.contents, h.length)
  }

  function NumbersOf(d: seq<byte>, hs: seq<Header>): seq<Slice> {
    if hs == [] then [] else (if hs[0].tag == 2 then [NumberOf(d, hs[0])] else []) + NumbersOf(d, hs[1..])
  }

  /** The number is that of the contents. */
  lemma NumberIsTheContents(d: seq<byte>, h: Header)
    requires End(h) <= |d|
    ensures var s := NumberOf(d, h);
            s.start + s.length == End(h) && Value256(d[s.start..End(h)]) == Value256(d[h.contents..End(h)])
  {
    hide Value256;
    var t := d[h.contents..End(h)];
    if NumberOf(d, h).start != h.contents {
      FirstByte(t);
      assert t[1..] == d[h.contents + 1..End(h)];
    }
  }

  lemma {:induction false} IntegersAre(d: seq<byte>, p: nat, space: nat, hs: seq<Header>)
    requires Tiled(d, p, space) && Row(d, p, space, hs)
    ensures Integers(d, p, space) == NumbersOf(d, hs)
    decreases |hs|
  {
    hide DecodedTag, HeaderFits, HeaderAt, Tiled, Integers;
    FirstElement(d, p, space);
    HeaderIs(d, p, hs[0]);
    SizedFirst(d, p, space);
    EndIs(d, p);
    if |hs| == 1 {
      assert NumbersOf(d, hs[1..]) == [];
    } else {
      IntegersAre(d, End(hs[0]), p + space - End(hs[0]), hs[1..]);
    }
  }

  lemma SizedFirst(d: seq<byte>, p: nat, space: nat)
    requires Tiled(d, p, space)
    ensures HeaderFits(d, p) && Sized(d, p)
  {
  }

  lemma {:induction false} RowStands(d: seq<byte>, p: nat, space: nat) returns (hs: seq<Header>)
    requires Tiled(d, p, space)
    ensures Row(d, p, space, hs)
    decreases space
  {
    hide DecodedTag, HeaderFits, HeaderAt, Tiled, Integers;
    FirstElement(d, p, space);
    var h := DecodedTag(d, p);
    HeaderIs(d, p, h);
    SizedFirst(d, p, space);
    EndIs(d, p);
    if h.total == space {
      hs := [h];
    } else {
      hs := RowStands(d, p + h.total, space - h.total);
      hs := [h] + hs;
      assert hs[1..] != [] && hs[0] == h;
    }
  }

  ghost predicate KeyAt(d: seq<byte>, at: nat, keyLength: nat, whole: Header, hs: seq<Header>, slices: seq<Slice>) {
    && HeaderAt(d, at, whole) && whole.tag == 48 && End(whole) <= at + keyLength
    && Row(d, whole.contents, whole.length, hs) && slices == NumbersOf(d, hs)
  }

  ghost predicate KeyStands(d: seq<byte>, at: nat, keyLength: nat, slices: seq<Slice>) {
    exists whole, hs :: KeyAt(d, at, keyLength, whole, hs, slices)
  }

  /** A key is read exactly when it is a sequence, no longer than announced: its integers are taken, in order, and its other
      elements passed over. */
  lemma KeyExactly(d: seq<byte>, at: nat, keyLength: nat, slices: seq<Slice>)
    requires Readable(d, at, keyLength)
    ensures RsaIntegers(d, at, keyLength) == Some(slices) <==> KeyStands(d, at, keyLength, slices)
  {
    hide DecodedTag, HeaderFits, HeaderAt, Tiled, Integers, Row, NumbersOf, Sized;
    var h := DecodedTag(d, at);
    HeaderIs(d, at, h);
    TooLongForInt(d, at, keyLength);
    if Sized(d, at) {
      EndIs(d, at);
    }
    if KeyStands(d, at, keyLength, slices) {
      var whole, hs :| KeyAt(d, at, keyLength, whole, hs, slices);
      HeaderIs(d, at, whole);
      IntegersAre(d, h.contents, h.length, hs);
    }
    if RsaIntegers(d, at, keyLength) == Some(slices) {
      var hs := RowStands(d, h.contents, h.length);
      IntegersAre(d, h.contents, h.length, hs);
      assert KeyAt(d, at, keyLength, h, hs, slices);
    }
  }

  /** An element whose size an `int` does not hold is longer than any key. */
  lemma TooLongForInt(d: seq<byte>, at: nat, keyLength: nat)
    requires HeaderFits(d, at) && keyLength < INT_LIMIT
    ensures End(DecodedTag(d, at)) <= at + keyLength ==> Sized(d, at)
  {
  }
}
